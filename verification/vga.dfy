/**
 * VGA text-mode terminal shared by both terminal drafts: kernel/kernel.cpp and
 * final-release/kernel/kernel.cpp define identical `make_color` and
 * `make_vgaentry`, and their character output, line feed and scrolling
 * behave alike. The screen is 80 by 25 cells of 16 bits, row by row; the
 * cursor is a row and a column.
 */
module Vga {
  import opened Common

  const Width: nat := 80
  const Height: nat := 25

  type Color = c: nat | c < 16

  const Black: Color := 0
  const LightGrey: Color := 7

  /** `make_color`: foreground in the low nibble, background in the high one. */
  function MakeColor(fg: Color, bg: Color): (attr: byte)
    ensures attr % 16 == fg && attr / 16 == bg
  {
    // the two nibbles do not overlap, so the bitwise or is a sum
    fg + bg * 16
  }

  /**
   * `make_vgaentry`: the character in the low byte and the attribute in the
   * high byte, combined with a bitwise or on 16 bits. The character is a C
   * `char`, so a code of 128 or more is negative and is sign-extended, which
   * fills the high byte.
   */
  function MakeVgaEntry(c: char, attr: byte): (cell: u16)
    requires IsChar8(c)
    ensures c as int < 128 ==> cell % 256 == c as int && cell / 256 == attr
    ensures c as int >= 128 ==> cell % 256 == c as int && cell / 256 == 0xFF
  {
    // sign extension of a negative char sets the whole high byte, which then
    // absorbs the attribute; otherwise the two bytes do not overlap
    if c as int < 128 then c as int + attr * 256 else 0xFF00 + c as int
  }

  /** The blank cell written by clearing and scrolling. */
  function Blank(attr: byte): (cell: u16)
    ensures cell % 256 == ' ' as int && cell / 256 == attr
  {
    MakeVgaEntry(' ', attr)
  }

  /** A screen: its 2000 cells, the cursor and the current attribute. */
  datatype Screen = Screen(cells: seq<u16>, row: nat, column: nat, attr: byte)

  /** Every cell present and the cursor on the screen. */
  predicate WellFormed(s: Screen) {
    |s.cells| == 2000 && s.row < 25 && s.column < 80
  }

  /** The cell index of a row and a column. */
  function Index(row: nat, column: nat): nat {
    row * 80 + column
  }

  /** All cells blank in `attr`. */
  function Cleared(attr: byte): (cells: seq<u16>)
    ensures |cells| == 2000 && forall i | 0 <= i < 2000 :: cells[i] == Blank(attr)
  {
    seq(2000, _ => Blank(attr))
  }

  /** Every row moved up one, the top row lost and the bottom row blank in `attr`. */
  function Scrolled(cells: seq<u16>, attr: byte): (r: seq<u16>)
    requires |cells| == 2000
    ensures |r| == 2000
    ensures forall i | 0 <= i < 1920 :: r[i] == cells[i + 80]
    ensures forall i | 1920 <= i < 2000 :: r[i] == Blank(attr)
  {
    cells[80..] + seq(80, _ => Blank(attr))
  }

  /** The line feed: column 0 of the next row, scrolling when that row is past the bottom. */
  function NewLine(s: Screen): (r: Screen)
    requires WellFormed(s)
    ensures WellFormed(r) && r.column == 0 && r.attr == s.attr
    ensures s.row < 24 ==> r.row == s.row + 1 && r.cells == s.cells
    ensures s.row == 24 ==> r.row == 24 && r.cells == Scrolled(s.cells, s.attr)
  {
    if s.row + 1 == 25 then Screen(Scrolled(s.cells, s.attr), 24, 0, s.attr)
    else s.(row := s.row + 1, column := 0)
  }

  /**
   * One character of terminal output: '\n' is a line feed; anything else
   * goes into the cursor cell and the cursor moves right, wrapping to the
   * next line after the last column.
   */
  function PutChar(s: Screen, c: char): (r: Screen)
    requires WellFormed(s) && IsChar8(c)
    ensures WellFormed(r) && r.attr == s.attr
  {
    if c == '\n' then NewLine(s)
    else
      var written := s.(cells := s.cells[Index(s.row, s.column) := MakeVgaEntry(c, s.attr)]);
      if s.column + 1 == 80 then NewLine(written) else written.(column := s.column + 1)
  }

  /** Characters output one after another. */
  function PutAll(s: Screen, data: seq<char>): (r: Screen)
    requires WellFormed(s) && forall i | 0 <= i < |data| :: IsChar8(data[i])
    ensures WellFormed(r) && r.attr == s.attr
    decreases |data|
  {
    if data == [] then s else PutAll(PutChar(s, data[0]), data[1..])
  }

  /** Output of `data` and then `c` is output of `data + [c]`. */
  lemma {:induction false} PutAllSnoc(s: Screen, data: seq<char>, c: char)
    requires WellFormed(s) && IsChar8(c) && forall i | 0 <= i < |data| :: IsChar8(data[i])
    ensures PutAll(s, data + [c]) == PutChar(PutAll(s, data), c)
    decreases |data|
  {
    if data == [] {
      assert [c][1..] == [];
    } else {
      assert (data + [c])[1..] == data[1..] + [c];
      PutAllSnoc(PutChar(s, data[0]), data[1..], c);
    }
  }

  /**
   * Output that fits on the cursor's row without a line break lands in the
   * cells from the cursor on, in order; the cursor ends just after it and no
   * other cell changes.
   */
  lemma {:induction false} PutLine(s: Screen, data: seq<char>)
    requires WellFormed(s) && forall i | 0 <= i < |data| :: IsChar8(data[i])
    requires '\n' !in data && s.column + |data| < 80
    ensures var r := PutAll(s, data);
      && r.row == s.row && r.column == s.column + |data|
      && (forall i | 0 <= i < |data| :: r.cells[Index(s.row, s.column + i)] == MakeVgaEntry(data[i], s.attr))
      && (forall i | 0 <= i < 2000 && !(Index(s.row, s.column) <= i < Index(s.row, s.column) + |data|) :: r.cells[i] == s.cells[i])
    decreases |data|
  {
    if data != [] {
      assert data[0] in data;
      var next := PutChar(s, data[0]);
      assert next.cells == s.cells[Index(s.row, s.column) := MakeVgaEntry(data[0], s.attr)];
      assert forall i | 0 <= i < |data[1..]| :: data[1..][i] in data;
      PutLine(next, data[1..]);
      var r := PutAll(s, data);
      forall i | 0 <= i < |data|
        ensures r.cells[Index(s.row, s.column + i)] == MakeVgaEntry(data[i], s.attr)
      {
        if i > 0 {
          assert data[i] == data[1..][i - 1];
        }
      }
    }
  }

  /** `terminal_clear` and the clearing loops: every cell becomes blank in `attr`, row by row. */
  method Clear(buffer: array<u16>, attr: byte)
    requires buffer.Length == 2000
    modifies buffer
    ensures buffer[..] == Cleared(attr)
  {
    for y := 0 to 25
      invariant forall i | 0 <= i < y * 80 :: buffer[i] == Blank(attr)
    {
      for x := 0 to 80
        invariant forall i | 0 <= i < y * 80 + x :: buffer[i] == Blank(attr)
      {
        buffer[y * 80 + x] := Blank(attr);
      }
    }
  }

  /** The copying loops of a scroll: each row gets the row below it, top first; the bottom row is left as it was. */
  method ShiftRowsUp(buffer: array<u16>)
    requires buffer.Length == 2000
    modifies buffer
    ensures forall i | 0 <= i < 1920 :: buffer[i] == old(buffer[i + 80])
    ensures forall i | 1920 <= i < 2000 :: buffer[i] == old(buffer[i])
  {
    for y := 0 to 24
      invariant forall i | 0 <= i < y * 80 :: buffer[i] == old(buffer[i + 80])
      invariant forall i | y * 80 <= i < 2000 :: buffer[i] == old(buffer[i])
    {
      for x := 0 to 80
        invariant forall i | 0 <= i < y * 80 + x :: buffer[i] == old(buffer[i + 80])
        invariant forall i | y * 80 + x <= i < 2000 :: buffer[i] == old(buffer[i])
      {
        buffer[y * 80 + x] := buffer[(y + 1) * 80 + x];
      }
    }
  }

  /** The loop blanking the bottom row in `attr`. */
  method BlankBottomRow(buffer: array<u16>, attr: byte)
    requires buffer.Length == 2000
    modifies buffer
    ensures forall i | 0 <= i < 1920 :: buffer[i] == old(buffer[i])
    ensures forall i | 1920 <= i < 2000 :: buffer[i] == Blank(attr)
  {
    for x := 0 to 80
      invariant forall i | 0 <= i < 1920 :: buffer[i] == old(buffer[i])
      invariant forall i | 1920 <= i < 1920 + x :: buffer[i] == Blank(attr)
    {
      buffer[24 * 80 + x] := Blank(attr);
    }
  }

  /** A whole scroll on the cell array: the rows shifted up, then the bottom row blanked. */
  method ScrollCells(buffer: array<u16>, attr: byte)
    requires buffer.Length == 2000
    modifies buffer
    ensures buffer[..] == Scrolled(old(buffer[..]), attr)
  {
    ShiftRowsUp(buffer);
    BlankBottomRow(buffer, attr);
  }
}
