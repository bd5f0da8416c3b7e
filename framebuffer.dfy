/**
 * The display writer as the object it is: a cursor, an active colour and a
 * reference to the 25 x 80 character buffer, which its methods update in
 * place. Each method is proved to leave the writer in the state the
 * corresponding function of Screen or Escapes computes from the old state.
 */
module FrameBuffer {
  import opened Screen
  import opened Palette
  import opened Escapes

  class FrameBufferWriter {
    var columnPosition: nat
    var rowPosition: nat
    var colorCode: Byte
    /** The text buffer, indexed `[row, column]`. */
    const buffer: array2<ScreenChar>

    /** The buffer has the screen's shape and the cursor is in range. */
    ghost predicate Valid()
      reads this
    {
      && buffer.Length0 == Height && buffer.Length1 == Width
      && rowPosition < Height && columnPosition <= Width
    }

    /** The buffer's contents as a grid value. */
    ghost function Cells(): (g: Grid)
      reads buffer
      requires buffer.Length0 == Height && buffer.Length1 == Width
      ensures IsGrid(g)
    {
      seq(Height, r requires 0 <= r < Height reads buffer =>
        seq(Width, c requires 0 <= c < Width reads buffer => buffer[r, c]))
    }

    /** The whole writer as a value of the pure model. */
    ghost function State(): (w: Writer)
      reads this, buffer
      requires Valid()
      ensures Screen.Valid(w)
    {
      Writer(Cells(), rowPosition, columnPosition, colorCode)
    }

    /** A grid that agrees with the buffer cell by cell is its contents. */
    lemma CellsAre(g: Grid)
      requires buffer.Length0 == Height && buffer.Length1 == Width && IsGrid(g)
      requires forall r, c :: 0 <= r < Height && 0 <= c < Width ==> buffer[r, c] == g[r][c]
      ensures Cells() == g
    {
      var cells := Cells();
      forall r | 0 <= r < Height
        ensures cells[r] == g[r]
      {
        assert forall c :: 0 <= c < Width ==> cells[r][c] == buffer[r, c];
      }
    }

    /** The writer as it is first created: cursor home, white on black. */
    constructor (buffer: array2<ScreenChar>)
      requires buffer.Length0 == Height && buffer.Length1 == Width
      ensures Valid() && this.buffer == buffer
      ensures State() == Initial(Cells())
    {
      this.buffer := buffer;
      columnPosition := 0;
      rowPosition := 0;
      colorCode := DefaultColor;
    }

    /** `write_byte`. */
    method WriteByte(b: Byte)
      requires Valid()
      modifies this, buffer
      ensures Valid()
      ensures State() == Screen.WriteByte(old(State()), b)
      decreases if b == Tab then 1 else 0
    {
      if b == Newline {
        NewLine();
      } else if b == Tab {
        ghost var w := State();
        for k := 0 to 4
          invariant Valid()
          invariant State() == Spaces(w, k)
        {
          WriteByte(Space);
        }
      } else {
        if columnPosition >= Width {
          NewLine();
        }
        ghost var w := State();
        var row := rowPosition;
        var col := columnPosition;
        assert forall r, c :: 0 <= r < Height && 0 <= c < Width ==> buffer[r, c] == w.grid[r][c];
        buffer[row, col] := ScreenChar(b, colorCode);
        columnPosition := columnPosition + 1;
        CellsAre(w.grid[row := w.grid[row][col := ScreenChar(b, colorCode)]]);
      }
    }

    /** `new_line`. */
    method NewLine()
      requires Valid()
      modifies this, buffer
      ensures Valid()
      ensures State() == Screen.NewLine(old(State()))
    {
      if rowPosition + 1 < Height {
        rowPosition := rowPosition + 1;
      } else {
        ScrollUp();
      }
      columnPosition := 0;
    }

    /** `scroll_up`: copies each row into the one above, then clears the last. */
    method ScrollUp()
      requires Valid()
      modifies buffer
      ensures Cells() == Screen.ScrollUp(old(Cells()), colorCode)
    {
      ghost var g := Cells();
      for row := 1 to Height
        invariant forall r, c :: 0 <= r < row - 1 && 0 <= c < Width ==> buffer[r, c] == g[r + 1][c]
        invariant forall r, c :: row - 1 <= r < Height && 0 <= c < Width ==> buffer[r, c] == g[r][c]
      {
        for col := 0 to Width
          invariant forall r, c :: 0 <= r < row - 1 && 0 <= c < Width ==> buffer[r, c] == g[r + 1][c]
          invariant forall c :: 0 <= c < col ==> buffer[row - 1, c] == g[row][c]
          invariant forall r, c :: r == row - 1 && col <= c < Width ==> buffer[r, c] == g[r][c]
          invariant forall r, c :: row <= r < Height && 0 <= c < Width ==> buffer[r, c] == g[r][c]
        {
          var character := buffer[row, col];
          buffer[row - 1, col] := character;
        }
      }
      CellsAre(g[1..] + [g[Height - 1]]);
      ClearRow(Height - 1);
    }

    /** `clear_row`. */
    method ClearRow(row: nat)
      requires Valid() && row < Height
      modifies buffer
      ensures Cells() == Screen.ClearRow(old(Cells()), row, colorCode)
    {
      ghost var g := Cells();
      for col := 0 to Width
        invariant forall r, c :: 0 <= r < Height && 0 <= c < Width && r != row ==> buffer[r, c] == g[r][c]
        invariant forall c :: 0 <= c < col ==> buffer[row, c] == ScreenChar(Space, colorCode)
      {
        buffer[row, col] := ScreenChar(Space, colorCode);
      }
      CellsAre(Screen.ClearRow(g, row, colorCode));
    }

    /**
     * The name-reading loop of the `\\c` arm of `write_str`: the characters
     * from `start` up to the next whitespace character or the end.
     */
    static method ReadColorName(s: string, start: nat) returns (colorName: string, end: nat)
      requires start <= |s|
      ensures end == start + NameLength(s[start..]) && colorName == s[start..end]
    {
      colorName := "";
      end := start;
      while end < |s| && !IsWhitespace(s[end])
        invariant start <= end <= |s|
        invariant colorName == s[start..end]
        invariant NameLength(s[start..]) == (end - start) + NameLength(s[end..])
      {
        assert s[end..][1..] == s[end + 1..];
        colorName := colorName + [s[end]];
        end := end + 1;
      }
    }

    /** `write_str`: the escape interpreter, one character of lookahead. */
    method WriteStr(s: string)
      requires Valid()
      modifies this, buffer
      ensures Valid()
      ensures State() == Escapes.WriteStr(old(State()), s)
    {
      ghost var target := Escapes.WriteStr(State(), s);
      var i := 0;
      while i < |s|
        invariant i <= |s|
        invariant Valid()
        invariant Escapes.WriteStr(State(), s[i..]) == target
      {
        ghost var w := State();
        ghost var i0 := i;
        ghost var rest := s[i..];
        ghost var next := Step(w, rest);
        var ch := s[i];
        i := i + 1;
        if ch == '\\' && i < |s| && s[i] == 'n' {
          i := i + 1;
          NewLine();
          assert State() == next.0 && i == i0 + next.1;
        } else if ch == '\\' && i < |s| && s[i] == 't' {
          i := i + 1;
          for k := 0 to 4
            invariant Valid()
            invariant State() == Spaces(w, k)
          {
            WriteByte(Space);
          }
          assert State() == next.0 && i == i0 + next.1;
        } else if ch == '\\' && i < |s| && s[i] == 'c' {
          i := i + 1;
          var colorName;
          colorName, i := ReadColorName(s, i);
          match ColorFromName(colorName) {
            case Some(newColor) => colorCode := newColor;
            case None =>
          }
          ColorStep(w, s, i0, i);
          assert State() == next.0 && i == i0 + next.1;
        } else {
          WriteByte(Narrow(ch));
          assert State() == next.0 && i == i0 + next.1;
        }
        StepThenRest(w, s, i0, i, next);
      }
    }
  }
}
