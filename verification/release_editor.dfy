/**
 * The release draft's line editor: one global editor state whose text
 * buffer is replaced by a fresh allocation on every insertion and deletion.
 * Characters are always appended at the end of the text; deletion removes
 * the character before `cursor_x`, read as a position in the whole text.
 * Refreshing the screen shows the text's lines, at most `screen_rows` of
 * them, each cut to `screen_cols`.
 *
 * Whether `malloc` grants a request is a parameter; `free` is not modelled
 * (the old buffer is simply dropped). The keyboard is a parameter too: the
 * key `keyboard_getchar` returned, as its unsigned code.
 */
module ReleaseEditor {
  import opened Common
  import opened TextLines

  /** What a keypress leads to beyond the editor state. */
  datatype KeyOutcome =
    | NoKey                                 // `keyboard_getchar` returned 0: nothing happens
    | Quit                                  // Ctrl-Q: the screen is cleared and the machine halts
    | Save(name: seq<char>, data: seq<char>) // Ctrl-S with a file and a buffer: the call to the `write_file` stub, which stores nothing
    | Handled                               // anything else; the screen is refreshed

  const KEY_BACKSPACE: byte := 0x08
  const KEY_LINE_FEED: byte := 0x0A
  const KEY_RETURN: byte := 0x0D
  const KEY_CTRL_Q: byte := 17
  const KEY_CTRL_S: byte := 19

  /** The text with the character at position `i - 1` removed. */
  function Removed(text: seq<char>, i: nat): (r: seq<char>)
    requires 0 < i <= |text|
    ensures |r| == |text| - 1
    ensures forall k | 0 <= k < i - 1 :: r[k] == text[k]
    ensures forall k | i - 1 <= k < |r| :: r[k] == text[k + 1]
  {
    text[..i - 1] + text[i..]
  }

  /** With the cursor at the end of the text, a deletion takes back the character just appended. */
  lemma DeleteUndoesAppend(text: seq<char>, c: char)
    ensures Removed(text + [c], |text| + 1) == text
  {
    assert (text + [c])[..|text|] == text;
  }

  /** A buffer holding the cells before `i - 1` and the ones from `i` on, closed up, holds the text without the character at `i - 1`. */
  lemma RemovedCells(text: seq<char>, cells: seq<char>, i: nat)
    requires 0 < i <= |text| && |text| <= |cells|
    requires cells[..i - 1] == text[..i - 1]
    requires i < |text| ==> cells[i - 1..|text| - 1] == text[i..]
    ensures cells[..|text| - 1] == Removed(text, i)
  {
    if i < |text| {
      assert cells[..|text| - 1] == cells[..i - 1] + cells[i - 1..|text| - 1];
    } else {
      assert text[i..] == [];
    }
  }

  /** A stretch whose every character differs from '\n' holds none. */
  lemma NoBreakIn(text: seq<char>, from: nat, to: nat)
    requires from <= to <= |text| && forall i | from <= i < to :: text[i] != '\n'
    ensures '\n' !in text[from..to]
  {
    forall j | 0 <= j < to - from
      ensures text[from..to][j] != '\n'
    {
      assert text[from..to][j] == text[from + j];
    }
  }

  /** A line cut to the screen width. */
  function Cut(line: seq<char>, cols: nat): (r: seq<char>)
    ensures |r| <= cols && |r| <= |line| && r == line[..|r|] && (|line| <= cols ==> r == line)
  {
    if |line| > cols then line[..cols] else line
  }

  /** What a refresh writes: the first `rows` lines of the text, each cut to `cols` characters. */
  function Shown(text: seq<char>, rows: nat, cols: nat): (shown: seq<seq<char>>)
    ensures |shown| == if |LinesOf(text)| <= rows then |LinesOf(text)| else rows
    ensures forall k | 0 <= k < |shown| :: shown[k] == Cut(LinesOf(text)[k], cols)
  {
    var lines := LinesOf(text);
    var n := if |lines| <= rows then |lines| else rows;
    seq(n, k requires 0 <= k < n => Cut(lines[k], cols))
  }

  /** No shown line is wider than the screen or holds a '\n', and no more lines than rows are shown. */
  lemma ShownFits(text: seq<char>, rows: nat, cols: nat)
    ensures |Shown(text, rows, cols)| <= rows
    ensures forall k | 0 <= k < |Shown(text, rows, cols)| ::
      |Shown(text, rows, cols)[k]| <= cols && '\n' !in Shown(text, rows, cols)[k]
  {
    LinesHaveNoNewline(text);
    var shown := Shown(text, rows, cols);
    forall k | 0 <= k < |shown|
      ensures '\n' !in shown[k]
    {
      var line := LinesOf(text)[k];
      assert shown[k] == line[..|shown[k]|];
    }
  }

  /** When every line fits, the screen shows the whole text: its lines, each ended by a line break. */
  lemma ShownComplete(text: seq<char>, rows: nat, cols: nat)
    requires |LinesOf(text)| <= rows
    requires forall k | 0 <= k < |LinesOf(text)| :: |LinesOf(text)[k]| <= cols
    ensures Shown(text, rows, cols) == LinesOf(text)
    ensures Join(Shown(text, rows, cols)) == Terminated(text)
  {
    LinesJoin(text);
  }

  class Editor {
    var buffer: array?<char>
    var bufferSize: nat
    var cursorX: nat
    var cursorY: nat
    var filename: Option<seq<char>>
    var screenRows: nat
    var screenCols: nat

    /** A null buffer is empty; otherwise the text and room for its terminator; the cursor column lies within the text. */
    ghost predicate Valid()
      reads this, buffer
    {
      && (buffer == null ==> bufferSize == 0)
      && (buffer != null ==> bufferSize < buffer.Length)
      && cursorX <= bufferSize
    }

    /** The text being edited. */
    ghost function Text(): seq<char>
      reads this, buffer
      requires Valid()
    {
      if buffer == null then [] else buffer[..bufferSize]
    }

    /**
     * `editor_init`, given the size `terminal_get_size` reports: an empty
     * editor; a zero dimension defaults to 24 rows or 80 columns, and one row
     * is kept for the status line.
     */
    constructor (termRows: nat, termCols: nat)
      ensures Valid() && Text() == [] && buffer == null
      ensures cursorX == 0 && cursorY == 0 && filename == None
      ensures screenRows == (if termRows == 0 then 24 else termRows) - 1
      ensures screenCols == (if termCols == 0 then 80 else termCols)
    {
      buffer := null;
      bufferSize := 0;
      cursorX := 0;
      cursorY := 0;
      filename := None;
      var rows := termRows;
      var cols := termCols;
      if rows == 0 {
        rows := 24;
      }
      if cols == 0 {
        cols := 80;
      }
      screenRows := rows - 1;
      screenCols := cols;
    }

    /**
     * `editor_insert_char`: a new buffer two cells longer than the text gets
     * the old text, `c` and a terminator, so `c` is appended at the end
     * wherever the cursor is; the cursor column advances, wrapping to the
     * start of the next row at the screen width. A refused allocation
     * changes nothing.
     */
    method InsertChar(c: char, granted: bool)
      requires Valid()
      modifies this
      ensures Valid()
      ensures !granted ==> Text() == old(Text()) && cursorX == old(cursorX) && cursorY == old(cursorY) && buffer == old(buffer)
      ensures granted ==> fresh(buffer) && Text() == old(Text()) + [c] && buffer[bufferSize] == '\0'
      ensures granted && old(cursorX) + 1 < screenCols ==> cursorX == old(cursorX) + 1 && cursorY == old(cursorY)
      ensures granted && old(cursorX) + 1 >= screenCols ==> cursorX == 0 && cursorY == old(cursorY) + 1
      ensures filename == old(filename) && screenRows == old(screenRows) && screenCols == old(screenCols)
    {
      var newSize := bufferSize + 2;
      if !granted {
        return;
      }
      var newBuffer := new char[newSize];
      if buffer != null {
        CopyInto(newBuffer, 0, buffer, 0, bufferSize);
      }
      newBuffer[bufferSize] := c;
      newBuffer[bufferSize + 1] := '\0';
      buffer := newBuffer;
      bufferSize := newSize - 1;
      cursorX := cursorX + 1;
      if cursorX >= screenCols {
        cursorX := 0;
        cursorY := cursorY + 1;
      }
    }

    /**
     * `editor_delete_char`: with a nonempty text and the cursor past column
     * 0, a buffer one cell shorter gets the text without the character at
     * `cursor_x - 1`, and the cursor moves back. Otherwise, or when the
     * allocation is refused, nothing changes.
     */
    method DeleteChar(granted: bool)
      requires Valid()
      modifies this
      ensures Valid()
      ensures var acts := old(bufferSize) > 0 && old(cursorX) > 0 && granted;
        && (acts ==> fresh(buffer) && Text() == Removed(old(Text()), old(cursorX)) && cursorX == old(cursorX) - 1)
        && (!acts ==> Text() == old(Text()) && cursorX == old(cursorX) && buffer == old(buffer))
      ensures cursorY == old(cursorY) && filename == old(filename)
      ensures screenRows == old(screenRows) && screenCols == old(screenCols)
    {
      if bufferSize > 0 && cursorX > 0 {
        var newSize := bufferSize;
        if !granted {
          return;
        }
        var newBuffer := CopyRemoved(buffer, bufferSize, cursorX);
        buffer := newBuffer;
        bufferSize := newSize - 1;
        cursorX := cursorX - 1;
      }
    }

    /**
     * `editor_process_keypress` for the key read: Enter ('\r' or '\n')
     * appends a line break and moves the cursor to the start of the next
     * row even if the allocation was refused; backspace deletes; Ctrl-Q
     * quits; Ctrl-S, when there is both a file name and a buffer, calls
     * `write_file`, whose definition in this draft is a stub that stores
     * nothing and reports success; printable characters (32 to 126) are
     * inserted; other keys are ignored.
     */
    method ProcessKeypress(key: byte, granted: bool) returns (outcome: KeyOutcome)
      requires Valid()
      modifies this
      ensures Valid()
      ensures key == 0 ==> outcome == NoKey && Text() == old(Text())
      ensures key == KEY_CTRL_Q ==> outcome == Quit && Text() == old(Text())
      ensures key in {0, KEY_CTRL_Q, KEY_CTRL_S} ==> cursorX == old(cursorX) && cursorY == old(cursorY)
      ensures key == KEY_CTRL_S ==> (Text() == old(Text()) &&
        outcome == (if old(filename).Some? && old(buffer) != null then Save(old(filename).value, old(Text())) else Handled))
      ensures key == KEY_RETURN || key == KEY_LINE_FEED ==>
        outcome == Handled && Text() == (if granted then old(Text()) + ['\n'] else old(Text()))
        && cursorX == 0 && cursorY == old(cursorY) + (if granted && old(cursorX) + 1 >= screenCols then 2 else 1)
      ensures key == KEY_BACKSPACE ==> (outcome == Handled && cursorY == old(cursorY) &&
        if old(bufferSize) > 0 && old(cursorX) > 0 && granted
        then Text() == Removed(old(Text()), old(cursorX)) && cursorX == old(cursorX) - 1
        else Text() == old(Text()) && cursorX == old(cursorX))
      ensures 32 <= key < 127 ==> (outcome == Handled &&
        Text() == (if granted then old(Text()) + [key as char] else old(Text())))
      ensures 32 <= key < 127 && !granted ==> cursorX == old(cursorX) && cursorY == old(cursorY)
      ensures 32 <= key < 127 && granted && old(cursorX) + 1 < screenCols ==> cursorX == old(cursorX) + 1 && cursorY == old(cursorY)
      ensures 32 <= key < 127 && granted && old(cursorX) + 1 >= screenCols ==> cursorX == 0 && cursorY == old(cursorY) + 1
      ensures key !in {0, KEY_BACKSPACE, KEY_LINE_FEED, KEY_RETURN, KEY_CTRL_Q, KEY_CTRL_S} && !(32 <= key < 127) ==>
        outcome == Handled && Text() == old(Text()) && cursorX == old(cursorX) && cursorY == old(cursorY)
      ensures filename == old(filename) && screenRows == old(screenRows) && screenCols == old(screenCols)
    {
      if key == 0 {
        return NoKey;
      }
      if key == KEY_RETURN || key == KEY_LINE_FEED {
        InsertChar('\n', granted);
        cursorX := 0;
        cursorY := cursorY + 1;
        outcome := Handled;
      } else if key == KEY_BACKSPACE {
        DeleteChar(granted);
        outcome := Handled;
      } else if key == KEY_CTRL_Q {
        outcome := Quit;
      } else if key == KEY_CTRL_S {
        if filename.Some? && buffer != null {
          outcome := Save(filename.value, buffer[..bufferSize]);
        } else {
          outcome := Handled;
        }
      } else {
        if 32 <= key < 127 {
          InsertChar(key as char, granted);
        }
        outcome := Handled;
      }
    }

    /**
     * The line splitting of `editor_refresh_screen`: from the start of the
     * text, find the end of the current line, write at most `screen_cols`
     * of it, continue after the line break, for at most `screen_rows` rows.
     * A null buffer shows no lines (the welcome message is drawn instead).
     */
    method RefreshLines() returns (lines: seq<seq<char>>)
      requires Valid()
      ensures lines == if buffer == null then [] else Shown(Text(), screenRows, screenCols)
    {
      lines := [];
      if buffer == null {
        return;
      }
      lines := RefreshText(buffer, bufferSize, screenRows, screenCols);
    }

    /** The refresh scan over the first `size` cells of `buf`. */
    static method RefreshText(buf: array<char>, size: nat, rows: nat, cols: nat) returns (lines: seq<seq<char>>)
      requires size <= buf.Length
      ensures lines == Shown(buf[..size], rows, cols)
    {
      ghost var text := buf[..size];
      ghost var raw: seq<seq<char>> := [];
      lines := [];
      var pos: nat, row: nat := 0, 0;
      ScanStart(text, cols);
      while pos < size && row < rows
        invariant pos <= size + 1 && row <= rows && row == |raw|
        invariant Scanned(text, raw, lines, cols, pos)
        decreases rows - row
      {
        lines, raw, pos := ScanRow(buf, size, cols, pos, text, raw, lines);
        row := row + 1;
      }
      RefreshDone(text, raw, lines, rows, cols, pos);
    }

    /** One round of the refresh scan: the row for the line at `pos` is written and the scan moves past its line break. */
    static method ScanRow(buf: array<char>, size: nat, cols: nat, pos: nat, ghost text: seq<char>, ghost raw: seq<seq<char>>, lines: seq<seq<char>>)
      returns (lines': seq<seq<char>>, ghost raw': seq<seq<char>>, pos': nat)
      requires pos < size <= buf.Length && text == buf[..size] && Scanned(text, raw, lines, cols, pos)
      ensures pos' <= size + 1 && |raw'| == |raw| + 1 && Scanned(text, raw', lines', cols, pos')
    {
      var line, lineEnd := NextRow(buf, size, cols, pos, text);
      lines' := lines + [line];
      raw' := raw + [text[pos..lineEnd]];
      pos' := lineEnd + 1;
      RowStep(text, raw, lines, cols, pos, lineEnd, line);
    }

    /** The row written for the line starting at `pos`, and where that line ends. */
    static method NextRow(buf: array<char>, size: nat, cols: nat, pos: nat, ghost text: seq<char>) returns (line: seq<char>, lineEnd: nat)
      requires pos < size <= buf.Length && text == buf[..size]
      ensures pos <= lineEnd <= size && '\n' !in text[pos..lineEnd]
      ensures lineEnd == size || text[lineEnd] == '\n'
      ensures line == Cut(text[pos..lineEnd], cols)
    {
      lineEnd := LineEnd(buf, size, pos, text);
      var lineLength := lineEnd - pos;
      if lineLength > cols {
        lineLength := cols;
      }
      line := buf[pos..pos + lineLength];
      assert line == text[pos..pos + lineLength];
      SliceOfSlice(text, pos, lineEnd, 0, lineLength);
    }

    /** The scan for the end of the line starting at `pos`: the next '\n', or the end of the text. */
    static method LineEnd(buf: array<char>, size: nat, pos: nat, ghost text: seq<char>) returns (lineEnd: nat)
      requires pos < size <= buf.Length && text == buf[..size]
      ensures pos <= lineEnd <= size && '\n' !in text[pos..lineEnd]
      ensures lineEnd == size || text[lineEnd] == '\n'
    {
      lineEnd := pos;
      while lineEnd < size && buf[lineEnd] != '\n'
        invariant pos <= lineEnd <= size
        invariant forall i | pos <= i < lineEnd :: text[i] != '\n'
      {
        lineEnd := lineEnd + 1;
      }
      NoBreakIn(text, pos, lineEnd);
    }

    /** The two `memcpy`s of a deletion: a fresh buffer of `size` cells starts with the text without the character at `x - 1`. */
    static method CopyRemoved(old_: array<char>, size: nat, x: nat) returns (cells: array<char>)
      requires 0 < x <= size < old_.Length
      ensures fresh(cells) && cells.Length == size && cells[..size - 1] == Removed(old_[..size], x)
    {
      cells := new char[size];
      CopyInto(cells, 0, old_, 0, x - 1);
      if x < size {
        CopyInto(cells, x - 1, old_, x, size - x);
      }
      RemovedCells(old_[..size], cells[..], x);
    }

    /** `memcpy` from the old buffer into a fresh one: `n` cells from `srcStart` land at `dstStart`. */
    static method CopyInto(dst: array<char>, dstStart: nat, src: array<char>, srcStart: nat, n: nat)
      requires dstStart + n <= dst.Length && srcStart + n <= src.Length && dst != src
      modifies dst
      ensures dst[dstStart..dstStart + n] == src[srcStart..srcStart + n]
      ensures dst[..dstStart] == old(dst[..dstStart]) && dst[dstStart + n..] == old(dst[dstStart + n..])
    {
      for i := 0 to n
        invariant dst[dstStart..dstStart + i] == src[srcStart..srcStart + i]
        invariant dst[..dstStart] == old(dst[..dstStart]) && dst[dstStart + i..] == old(dst[dstStart + i..])
      {
        dst[dstStart + i] := src[srcStart + i];
        assert dst[dstStart..dstStart + i + 1] == dst[dstStart..dstStart + i] + [dst[dstStart + i]];
      }
    }
  }

  /** Each of the lines cut to the width. */
  function CutAll(raw: seq<seq<char>>, cols: nat): (cut: seq<seq<char>>)
    ensures |cut| == |raw|
  {
    if raw == [] then [] else CutAll(raw[..|raw| - 1], cols) + [Cut(raw[|raw| - 1], cols)]
  }

  /** The `k`th line cut is the `k`th line, cut. */
  lemma {:induction false} CutAllAt(raw: seq<seq<char>>, cols: nat, k: nat)
    requires k < |raw|
    ensures CutAll(raw, cols)[k] == Cut(raw[k], cols)
    decreases |raw|
  {
    if k < |raw| - 1 {
      CutAllAt(raw[..|raw| - 1], cols, k);
    }
  }

  /**
   * The refresh scan's invariant: the rows written so far are the lines
   * consumed so far, each cut to the width, and the text's lines are those
   * followed by the lines of the rest from `pos`.
   */
  ghost predicate Scanned(text: seq<char>, raw: seq<seq<char>>, lines: seq<seq<char>>, cols: nat, pos: nat) {
    && lines == CutAll(raw, cols)
    && LinesOf(text) == raw + LinesOf(text[Min(pos, |text|)..])
  }

  /** The refresh scan's invariant holds before any line is read. */
  lemma ScanStart(text: seq<char>, cols: nat)
    ensures Scanned(text, [], [], cols, 0)
  {
    assert text[Min(0, |text|)..] == text;
  }

  /** The refresh scan's invariant carried past one line. */
  lemma RowStep(text: seq<char>, raw: seq<seq<char>>, lines: seq<seq<char>>, cols: nat, pos: nat, lineEnd: nat, line: seq<char>)
    requires pos < |text| && pos <= lineEnd <= |text| && '\n' !in text[pos..lineEnd]
    requires lineEnd == |text| || text[lineEnd] == '\n'
    requires Scanned(text, raw, lines, cols, pos) && line == Cut(text[pos..lineEnd], cols)
    ensures Scanned(text, raw + [text[pos..lineEnd]], lines + [line], cols, lineEnd + 1)
  {
    CutsStep(raw, cols, text[pos..lineEnd]);
    LinesStep(text, raw, pos, lineEnd);
  }

  /** Cutting one more line adds its cut. */
  lemma CutsStep(raw: seq<seq<char>>, cols: nat, rawLine: seq<char>)
    ensures CutAll(raw + [rawLine], cols) == CutAll(raw, cols) + [Cut(rawLine, cols)]
  {
    assert (raw + [rawLine])[..|raw|] == raw;
  }

  /** The lines consumed, one more line on. */
  lemma LinesStep(text: seq<char>, raw: seq<seq<char>>, pos: nat, lineEnd: nat)
    requires pos < |text| && pos <= lineEnd <= |text| && '\n' !in text[pos..lineEnd]
    requires lineEnd == |text| || text[lineEnd] == '\n'
    requires LinesOf(text) == raw + LinesOf(text[Min(pos, |text|)..])
    ensures LinesOf(text) == (raw + [text[pos..lineEnd]]) + LinesOf(text[Min(lineEnd + 1, |text|)..])
  {
    NextLine(text, pos, lineEnd);
  }

  /** When the scan stops, at the end of the text or of the screen, the rows written are the ones shown. */
  lemma RefreshDone(text: seq<char>, raw: seq<seq<char>>, lines: seq<seq<char>>, rows: nat, cols: nat, pos: nat)
    requires |raw| <= rows && (pos >= |text| || |raw| == rows)
    requires Scanned(text, raw, lines, cols, pos)
    ensures lines == Shown(text, rows, cols)
  {
    if pos >= |text| {
      assert text[Min(pos, |text|)..] == [];
    }
    var shown := Shown(text, rows, cols);
    assert |shown| == |raw|;
    forall k | 0 <= k < |raw|
      ensures lines[k] == shown[k]
    {
      CutAllAt(raw, cols, k);
      assert raw[k] == LinesOf(text)[k];
    }
  }

  /** One step of the refresh scan: the line from `pos` runs to the next '\n' (or the end). */
  lemma NextLine(text: seq<char>, pos: nat, lineEnd: nat)
    requires pos < |text| && pos <= lineEnd <= |text| && '\n' !in text[pos..lineEnd]
    requires lineEnd == |text| || text[lineEnd] == '\n'
    ensures LinesOf(text[pos..]) == [text[pos..lineEnd]] + LinesOf(text[Min(lineEnd + 1, |text|)..])
  {
    var s := text[pos..];
    var k := lineEnd - pos;
    assert s[..k] == text[pos..lineEnd];
    if k < |s| {
      LinesAt(s, k);
      assert s[k + 1..] == text[lineEnd + 1..];
    } else {
      NewlineAtIs(s, k);
      assert LinesOf(s) == [s[..k]];
      assert text[Min(lineEnd + 1, |text|)..] == [];
    }
  }
}
