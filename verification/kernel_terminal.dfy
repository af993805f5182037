/**
 * The first draft's terminal (kernel/kernel.cpp): the same VGA text screen
 * as the final draft, plus a colour setter, a backspace and a size query.
 * The line feed scrolls in place rather than through a separate scroll
 * routine. Every operation is proved against the screen functions of `Vga`.
 */
module KernelTerminal {
  import opened Common
  import opened CStrings
  import opened Vga

  /**
   * The backspace: the column goes back one and that cell is blanked in the
   * current attribute; in column 0 nothing happens (it never goes back a row).
   */
  function Erased(s: Screen): (r: Screen)
    requires WellFormed(s)
    ensures WellFormed(r) && r.row == s.row && r.attr == s.attr
    ensures s.column == 0 ==> r == s
    ensures s.column > 0 ==> (
      r.column == s.column - 1 && |r.cells| == 2000
      && r.cells[Index(s.row, s.column - 1)] == Blank(s.attr)
      && forall i | 0 <= i < 2000 && i != Index(s.row, s.column - 1) :: r.cells[i] == s.cells[i])
  {
    if s.column == 0 then s
    else s.(column := s.column - 1, cells := s.cells[Index(s.row, s.column - 1) := Blank(s.attr)])
  }

  /**
   * A backspace right after printing a character that did not fill the row
   * puts the cursor back where it was and leaves that cell blank.
   */
  lemma BackspaceUndoesChar(s: Screen, c: char)
    requires WellFormed(s) && IsChar8(c) && c != '\n' && s.column + 1 < 80
    ensures Erased(PutChar(s, c)) == s.(cells := s.cells[Index(s.row, s.column) := Blank(s.attr)])
  {
  }

  /** A backspace after a space printed in the same attribute gives back the screen exactly when that cell was already blank. */
  lemma BackspaceAfterSpace(s: Screen)
    requires WellFormed(s) && s.column + 1 < 80
    ensures Erased(PutChar(s, ' ')) == s <==> s.cells[Index(s.row, s.column)] == Blank(s.attr)
  {
    BackspaceUndoesChar(s, ' ');
    var r := s.(cells := s.cells[Index(s.row, s.column) := Blank(s.attr)]);
    if r == s {
      assert r.cells[Index(s.row, s.column)] == Blank(s.attr);
    }
  }

  class Terminal {
    const buffer: array<u16>
    var row: nat
    var column: nat
    var color: byte

    ghost predicate Valid()
      reads this
    {
      buffer.Length == 2000 && row < 25 && column < 80
    }

    /** The screen the kernel state and the buffer make up. */
    ghost function State(): Screen
      reads this, buffer
    {
      Screen(buffer[..], row, column, color)
    }

    /** `terminal_init`: cursor home, light grey on black, then a clear. */
    constructor Init(vgaMemory: array<u16>)
      requires vgaMemory.Length == 2000
      modifies vgaMemory
      ensures Valid() && buffer == vgaMemory
      ensures State() == Screen(Cleared(MakeColor(LightGrey, Black)), 0, 0, MakeColor(LightGrey, Black))
    {
      buffer := vgaMemory;
      row := 0;
      column := 0;
      color := MakeColor(LightGrey, Black);
      new;
      Clear();
    }

    /** `terminal_clear`: every cell blank in the current attribute; the cursor stays where it was. */
    method Clear()
      requires buffer.Length == 2000
      modifies buffer
      ensures buffer[..] == Cleared(color)
    {
      Vga.Clear(buffer, color);
    }

    /** `terminal_set_color`: later output uses the new attribute; nothing on screen changes. */
    method SetColor(fg: Color, bg: Color)
      modifies this
      ensures color == MakeColor(fg, bg) && row == old(row) && column == old(column)
    {
      color := MakeColor(fg, bg);
    }

    /**
     * `terminal_new_line`: column 0 of the next row; past the bottom the
     * rows are shifted up, the row goes back to the last one and that row is
     * blanked.
     */
    method NewLine()
      requires Valid()
      modifies this, buffer
      ensures Valid() && State() == Vga.NewLine(old(State()))
    {
      column := 0;
      row := row + 1;
      if row == 25 {
        ShiftRowsUp(buffer);
        row := row - 1;
        BlankBottomRow(buffer, color);
        assert buffer[..] == Scrolled(old(buffer[..]), color);
      }
    }

    /** `terminal_write_char`: one character of output. */
    method WriteChar(c: char)
      requires Valid() && IsChar8(c)
      modifies this, buffer
      ensures Valid() && State() == PutChar(old(State()), c)
    {
      if c == '\n' {
        NewLine();
        return;
      }
      buffer[row * 80 + column] := MakeVgaEntry(c, color);
      column := column + 1;
      if column == 80 {
        column := 0;
        NewLine();
      }
    }

    /** `terminal_backspace`. */
    method Backspace()
      requires Valid()
      modifies this, buffer
      ensures Valid() && State() == Erased(old(State()))
    {
      if column > 0 {
        column := column - 1;
        buffer[row * 80 + column] := Blank(color);
      }
    }

    /** `terminal_write`: the first `size` characters of `data`, in order. */
    method Write(data: array<char>, size: nat)
      requires Valid() && size <= data.Length && forall i | 0 <= i < size :: IsChar8(data[i])
      modifies this, buffer
      ensures Valid() && State() == PutAll(old(State()), data[..size])
    {
      for i := 0 to size
        invariant Valid() && State() == PutAll(old(State()), data[..i])
      {
        PutAllSnoc(old(State()), data[..i], data[i]);
        assert data[..i + 1] == data[..i] + [data[i]];
        WriteChar(data[i]);
      }
    }

    /** `terminal_write_string`: character by character up to the terminator. */
    method WriteString(data: array<char>)
      requires Valid() && '\0' in data[..] && IsCStr(CString(data[..]))
      modifies this, buffer
      ensures Valid() && State() == PutAll(old(State()), CString(data[..]))
    {
      ghost var text := CString(data[..]);
      var i := 0;
      while data[i] != '\0'
        invariant i <= |text| && data[..i] == text[..i]
        invariant Valid() && State() == PutAll(old(State()), text[..i])
        decreases |text| - i
      {
        assert i < |text|;
        PutAllSnoc(old(State()), text[..i], text[i]);
        assert text[..i + 1] == text[..i] + [text[i]];
        WriteChar(data[i]);
        i := i + 1;
      }
      assert i == |text|;
      assert text[..i] == text;
    }
  }

  /** `terminal_get_size`: the rows and columns of the screen, which together cover every cell. */
  method GetSize() returns (rows: nat, cols: nat)
    ensures rows * cols == 2000 && Index(rows - 1, cols - 1) == 1999
    ensures rows == Height && cols == Width
  {
    rows := 25;
    cols := 80;
  }
}
