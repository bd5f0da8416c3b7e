/**
 * The text-mode character grid and the byte path of the display writer,
 * as pure values: a 25 x 80 grid of cells, a cursor (row, column) and the
 * active colour. The imperative writer in module FrameBuffer is proved
 * against the functions of this module.
 */
module Screen {

  const Width: nat := 80
  const Height: nat := 25

  /** An unsigned 8-bit value (`u8`). */
  type Byte = x: int | 0 <= x < 256

  const Tab: Byte := 0x09
  const Newline: Byte := 0x0A
  const Space: Byte := 0x20
  const Backslash: Byte := 0x5C

  /** The colour the writer starts with: white on black. */
  const DefaultColor: Byte := 0x0F

  /** One display cell: a character byte and a colour attribute byte. */
  datatype ScreenChar = ScreenChar(ascii: Byte, color: Byte)

  /** The grid, row by row. */
  type Grid = seq<seq<ScreenChar>>

  ghost predicate IsGrid(g: Grid) {
    |g| == Height && forall r :: 0 <= r < |g| ==> |g[r]| == Width
  }

  /** The state of the display writer: grid, cursor and active colour. */
  datatype Writer = Writer(grid: Grid, row: nat, col: nat, color: Byte)

  /**
   * The writer's invariant: the grid has its fixed shape, the row is on
   * the screen, and the column is at most one past the last column (it
   * reaches Width after a write to the last column; the next plain byte
   * wraps first).
   */
  ghost predicate Valid(w: Writer) {
    IsGrid(w.grid) && w.row < Height && w.col <= Width
  }

  /** The writer as the single instance is created: cursor home, white. */
  function Initial(g: Grid): (w: Writer)
    ensures IsGrid(g) ==> Valid(w)
  {
    Writer(g, 0, 0, DefaultColor)
  }

  function BlankRow(color: Byte): seq<ScreenChar> {
    seq(Width, _ => ScreenChar(Space, color))
  }

  /** `clear_row`: row `r` becomes spaces in `color`. */
  function ClearRow(g: Grid, r: nat, color: Byte): (g': Grid)
    requires IsGrid(g) && r < Height
    ensures IsGrid(g')
  {
    g[r := BlankRow(color)]
  }

  /**
   * `scroll_up`: every row 1..Height-1 is copied into the row above it
   * (after which the last row still holds its old contents), then the last
   * row is cleared in the active colour.
   */
  function ScrollUp(g: Grid, color: Byte): (g': Grid)
    requires IsGrid(g)
    ensures IsGrid(g')
  {
    ClearRow(g[1..] + [g[Height - 1]], Height - 1, color)
  }

  /** `new_line`: next row, or scroll when on the last row; column 0. */
  function NewLine(w: Writer): (r: Writer)
    requires Valid(w)
    ensures Valid(r) && r.col == 0 && r.color == w.color
  {
    var w1 := if w.row + 1 < Height then w.(row := w.row + 1)
              else w.(grid := ScrollUp(w.grid, w.color));
    w1.(col := 0)
  }

  /**
   * The branch of `write_byte` for a byte other than newline and tab:
   * wrap first when the column has run off the line, then write the cell
   * under the cursor and advance the column.
   */
  function PutByte(w: Writer, b: Byte): (r: Writer)
    requires Valid(w)
    ensures Valid(r) && 1 <= r.col && r.color == w.color
  {
    var w1 := if w.col >= Width then NewLine(w) else w;
    w1.(grid := w1.grid[w1.row := w1.grid[w1.row][w1.col := ScreenChar(b, w1.color)]],
        col := w1.col + 1)
  }

  /** `n` successive writes of a space through the plain-byte branch. */
  function Spaces(w: Writer, n: nat): (r: Writer)
    requires Valid(w)
    ensures Valid(r) && r.color == w.color
  {
    if n == 0 then w else PutByte(Spaces(w, n - 1), Space)
  }

  /** `write_byte`. */
  function WriteByte(w: Writer, b: Byte): (r: Writer)
    requires Valid(w)
    ensures Valid(r)
    ensures r.color == w.color
  {
    if b == Newline then NewLine(w)
    else if b == Tab then Spaces(w, 4)
    else PutByte(w, b)
  }

  // ---------------------------------------------------------------------
  // Properties of the byte path

  /**
   * A plain byte written with the cursor on the line lands under the
   * cursor in the active colour; the column advances by one and nothing
   * else changes (so reading the cell back gives what was written).
   */
  lemma PlainByteWrite(w: Writer, b: Byte)
    requires Valid(w) && b != Newline && b != Tab && w.col < Width
    ensures var r := WriteByte(w, b);
      && r.grid[w.row][w.col] == ScreenChar(b, w.color)
      && (forall i, j :: 0 <= i < Height && 0 <= j < Width && (i, j) != (w.row, w.col)
            ==> r.grid[i][j] == w.grid[i][j])
      && r.row == w.row && r.col == w.col + 1 && r.color == w.color
  {
  }

  /**
   * A plain byte arriving with the column at the end of the line first
   * advances the line, so it lands in column 0 of the next row, or of the
   * last row after a scroll.
   */
  lemma AutomaticWrap(w: Writer, b: Byte)
    requires Valid(w) && b != Newline && b != Tab && w.col >= Width
    ensures var r := WriteByte(w, b);
      && r.row == (if w.row + 1 < Height then w.row + 1 else Height - 1)
      && r.col == 1
      && r.grid[r.row][0] == ScreenChar(b, w.color)
      && r == PutByte(NewLine(w), b)
  {
  }

  /**
   * `new_line` moves down a row when there is one, and otherwise scrolls
   * and stays on the last row; the column is 0 and the colour unchanged.
   */
  lemma NewLineAdvance(w: Writer)
    requires Valid(w)
    ensures var r := NewLine(w);
      && r.col == 0 && r.color == w.color
      && (w.row + 1 < Height ==> r.row == w.row + 1 && r.grid == w.grid)
      && (w.row + 1 >= Height ==> r.row == w.row == Height - 1 && r.grid == ScrollUp(w.grid, w.color))
  {
  }

  /** Scrolling shifts rows up by one and leaves a blank last row. */
  lemma ScrollShift(g: Grid, color: Byte)
    requires IsGrid(g)
    ensures var g' := ScrollUp(g, color);
      && (forall r :: 1 <= r < Height ==> g'[r - 1] == g[r])
      && g'[Height - 1] == BlankRow(color)
  {
  }

  /** Clearing a row blanks exactly that row. */
  lemma ClearRowEffect(g: Grid, r: nat, color: Byte)
    requires IsGrid(g) && r < Height
    ensures var g' := ClearRow(g, r, color);
      && (forall c :: 0 <= c < Width ==> g'[r][c] == ScreenChar(Space, color))
      && (forall i :: 0 <= i < Height && i != r ==> g'[i] == g[i])
  {
  }

  /** A tab byte is exactly four writes of a space byte. */
  lemma {:induction false} TabIsFourSpaces(w: Writer)
    requires Valid(w)
    ensures WriteByte(w, Tab)
         == WriteByte(WriteByte(WriteByte(WriteByte(w, Space), Space), Space), Space)
  {
    assert Spaces(w, 0) == w;
    var w1 := Spaces(w, 1);
    var w2 := Spaces(w, 2);
    var w3 := Spaces(w, 3);
    assert w1 == WriteByte(w, Space);
    assert w2 == WriteByte(w1, Space);
    assert w3 == WriteByte(w2, Space);
    assert Spaces(w, 4) == WriteByte(w3, Space);
  }

  /**
   * A tab is not aligned to a tab stop and may wrap: two columns before the
   * end of a line (with a row below), two spaces end that line and two
   * more start the next.
   */
  lemma {:induction false} TabAcrossLineEnd(w: Writer)
    requires Valid(w) && w.col == Width - 2 && w.row + 1 < Height
    ensures var r := WriteByte(w, Tab);
      && r.row == w.row + 1 && r.col == 2 && r.color == w.color
      && r.grid[w.row][Width - 2] == ScreenChar(Space, w.color)
      && r.grid[w.row][Width - 1] == ScreenChar(Space, w.color)
      && r.grid[w.row + 1][0] == ScreenChar(Space, w.color)
      && r.grid[w.row + 1][1] == ScreenChar(Space, w.color)
  {
    assert Spaces(w, 0) == w;
    var w1 := Spaces(w, 1);
    var w2 := Spaces(w, 2);
    var w3 := Spaces(w, 3);
    PlainByteWrite(w, Space);
    PlainByteWrite(w1, Space);
    AutomaticWrap(w2, Space);
    PlainByteWrite(w3, Space);
  }
}
