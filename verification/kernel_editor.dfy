/**
 * The first draft's line editor: one global editor state holding a
 * NUL-terminated text buffer that grows with `realloc`, a cursor that only
 * ever moves right, and a screen view with row and column offsets. Lines
 * are found on demand by scanning the text for '\n' (`get_num_lines`,
 * `get_line`), and a refresh writes one screen row per visible file line.
 *
 * Whether `malloc` and `realloc` grant a request is a parameter; `free` is
 * not modelled. The keyboard is a parameter too: the key read, as its
 * unsigned code.
 */
module KernelEditor {
  import opened Common
  import opened CStrings
  import opened TextLines

  /** What a keypress leads to beyond the editor state. */
  datatype KeyOutcome =
    | NoKey                                  // `keyboard_getchar` returned 0: nothing happens
    | Quit                                   // Ctrl-Q: the screen is cleared and the machine halts
    | Save(name: seq<char>, data: seq<char>) // Ctrl-S with a file name: `write_file(name, data)`
    | Handled                                // anything else; the screen is refreshed

  const KEY_CTRL_Q: byte := 17
  const KEY_CTRL_S: byte := 19

  /** The banner drawn a third of the way down an empty editor. */
  const WELCOME: seq<char> := "Editor -- version 1.0.0"

  /** The screen geometry: text rows (the last one is the status line), columns, and the scroll offsets. */
  datatype View = View(rows: nat, cols: nat, rowOffset: nat, colOffset: nat)

  /** The first '\n' at or after `from`, or the length of the text when there is none. */
  function BreakFrom(text: seq<char>, from: nat): (n: nat)
    requires from <= |text|
    ensures from <= n <= |text| && (n < |text| ==> text[n] == '\n')
    ensures forall i | from <= i < n :: text[i] != '\n'
    decreases |text| - from
  {
    if from == |text| || text[from] == '\n' then from else BreakFrom(text, from + 1)
  }

  /** A stretch free of '\n' that ends at a '\n' (or the end) locates the next '\n'. */
  lemma {:induction false} BreakAt(text: seq<char>, from: nat, n: nat)
    requires from <= n <= |text| && (n < |text| ==> text[n] == '\n')
    requires forall i | from <= i < n :: text[i] != '\n'
    ensures BreakFrom(text, from) == n
    decreases n - from
  {
    if from < n {
      BreakAt(text, from + 1, n);
    }
  }

  /** Searching from `from` is searching the rest of the text. */
  lemma BreakFromRest(text: seq<char>, from: nat)
    requires from <= |text|
    ensures BreakFrom(text, from) == from + NewlineAt(text[from..])
  {
    var n := BreakFrom(text, from);
    var rest := text[from..];
    assert rest[..n - from] == text[from..n];
    NewlineAtIs(rest, n - from);
  }

  /**
   * Where the line `k` lines below one starting at `start` starts: hop over
   * `k` line breaks, or nothing when the text runs out of them first.
   */
  function LineStart(text: seq<char>, start: nat, k: nat): (r: Option<nat>)
    requires start <= |text|
    ensures r.Some? ==> r.value <= |text|
    decreases k
  {
    if k == 0 then Some(start)
    else
      var n := BreakFrom(text, start);
      if n == |text| then None else LineStart(text, n + 1, k - 1)
  }

  /**
   * Line `k` below `start` exists exactly when there are more than `k`
   * pieces, and then it runs up to the next '\n' as piece `k` does.
   */
  predicate LinesMatch(text: seq<char>, start: nat, k: nat, pieces: seq<seq<char>>)
    requires start <= |text|
  {
    && (LineStart(text, start, k).Some? <==> k < |pieces|)
    && (LineStart(text, start, k).Some? ==>
          var o := LineStart(text, start, k).value;
          text[o..BreakFrom(text, o)] == pieces[k])
  }

  /**
   * The pieces of the text from `start`, found by hopping over line breaks:
   * the stretch up to the next '\n', then the pieces past it.
   */
  function PiecesAt(text: seq<char>, start: nat): (pieces: seq<seq<char>>)
    requires start <= |text|
    ensures pieces != []
    decreases |text| - start
  {
    var n := BreakFrom(text, start);
    if n == |text| then [text[start..]] else [text[start..n]] + PiecesAt(text, n + 1)
  }

  /** Every line found by hopping over line breaks is the matching piece of the text, and only those exist. */
  lemma {:induction false} LineStartPieces(text: seq<char>, start: nat, k: nat)
    requires start <= |text|
    ensures LinesMatch(text, start, k, PiecesAt(text, start))
    decreases k
  {
    var n := BreakFrom(text, start);
    if k > 0 && n < |text| {
      LineStartPieces(text, n + 1, k - 1);
      BelowBreak(text, start, k, PiecesAt(text, start), PiecesAt(text, n + 1));
    } else if k == 0 {
      assert LineStart(text, start, k) == Some(start);
      assert n == |text| ==> text[start..] == text[start..n];
    } else {
      assert LineStart(text, start, k) == None;
    }
  }

  /**
   * The inductive step of `LineStartPieces`, past the first '\n' from
   * `start`: `here` are the pieces from `start`, `below` those past the '\n'.
   */
  lemma BelowBreak(text: seq<char>, start: nat, k: nat, here: seq<seq<char>>, below: seq<seq<char>>)
    requires start <= |text| && k > 0 && BreakFrom(text, start) < |text|
    requires here == [text[start..BreakFrom(text, start)]] + below
    requires LinesMatch(text, BreakFrom(text, start) + 1, k - 1, below)
    ensures LinesMatch(text, start, k, here)
  {
    var n := BreakFrom(text, start);
    assert LineStart(text, start, k) == LineStart(text, n + 1, k - 1);
  }

  /** Hopping over line breaks finds the same pieces as splitting the rest of the text. */
  lemma {:induction false} PiecesAtRest(text: seq<char>, start: nat)
    requires start <= |text|
    ensures PiecesAt(text, start) == Pieces(text[start..])
    decreases |text| - start
  {
    var n := BreakFrom(text, start);
    if n == |text| {
      PiecesAtLast(text, start);
    } else {
      PiecesAtRest(text, n + 1);
      PiecesAtBreak(text, start, PiecesAt(text, n + 1));
    }
  }

  lemma PiecesAtLast(text: seq<char>, start: nat)
    requires start <= |text| && BreakFrom(text, start) == |text|
    ensures PiecesAt(text, start) == Pieces(text[start..])
  {
    BreakFromRest(text, start);
    LastPiece(text[start..]);
  }

  lemma PiecesAtBreak(text: seq<char>, start: nat, below: seq<seq<char>>)
    requires start <= |text| && BreakFrom(text, start) < |text|
    requires below == PiecesAt(text, BreakFrom(text, start) + 1) == Pieces(text[BreakFrom(text, start) + 1..])
    ensures PiecesAt(text, start) == Pieces(text[start..])
  {
    var n := BreakFrom(text, start);
    var first := text[start..n];
    PiecesAtUnfold(text, start);
    assert PiecesAt(text, start) == [first] + below;
    BreakFromRest(text, start);
    PiecesPastBreak(text, start, n);
    assert Pieces(text[start..]) == [first] + below;
  }

  lemma PiecesAtUnfold(text: seq<char>, start: nat)
    requires start <= |text| && BreakFrom(text, start) < |text|
    ensures PiecesAt(text, start) == [text[start..BreakFrom(text, start)]] + PiecesAt(text, BreakFrom(text, start) + 1)
  {
  }

  /** A text without '\n' is one piece. */
  lemma LastPiece(rest: seq<char>)
    requires NewlineAt(rest) == |rest|
    ensures Pieces(rest) == [rest]
  {
  }

  /** The first '\n' from `start` at `n` splits off the first piece. */
  lemma PiecesPastBreak(text: seq<char>, start: nat, n: nat)
    requires start <= n < |text| && n == start + NewlineAt(text[start..])
    ensures Pieces(text[start..]) == [text[start..n]] + Pieces(text[n + 1..])
  {
    var rest := text[start..];
    assert rest[..n - start] == text[start..n];
    assert rest[n - start + 1..] == text[n + 1..];
    LinesAt(rest, n - start);
  }

  /** The part of a line a row shows: from the column offset on, at most `cols` characters. */
  function Visible(line: seq<char>, colOffset: nat, cols: nat): (v: seq<char>)
    ensures |v| <= cols
    ensures |line| <= colOffset ==> v == []
    ensures colOffset < |line| ==> colOffset + |v| <= |line| && v == line[colOffset..colOffset + |v|]
    ensures colOffset < |line| && |line| - colOffset <= cols ==> v == line[colOffset..]
  {
    if |line| > colOffset then
      var len := if |line| - colOffset > cols then cols else |line| - colOffset;
      line[colOffset..colOffset + len]
    else []
  }

  /**
   * The welcome row: padding of half the room the banner leaves (the banner
   * counted at most `cols` long), then the whole banner.
   */
  function WelcomeRow(cols: nat): (row: seq<char>)
    ensures |row| >= |WELCOME|
    ensures cols >= |WELCOME| ==> |row| <= cols && |row| - |WELCOME| == (cols - |WELCOME|) / 2
  {
    var len := if |WELCOME| > cols then cols else |WELCOME|;
    seq((cols - len) / 2, _ => ' ') + WELCOME
  }

  /**
   * Screen row `y` of a refresh. `text` is None for a null buffer, which
   * has no lines; past the last line an empty buffer shows the welcome row
   * a third of the way down, every other row a '~'.
   */
  function Row(text: Option<seq<char>>, empty: bool, v: View, y: nat): (row: seq<char>)
    ensures var lines := if text.None? then 0 else |Pieces(text.value)|;
      y + v.rowOffset < lines ==> row == Visible(Pieces(text.value)[y + v.rowOffset], v.colOffset, v.cols)
    ensures var lines := if text.None? then 0 else |Pieces(text.value)|;
      y + v.rowOffset >= lines ==> row == if empty && y == v.rows / 3 then WelcomeRow(v.cols) else "~"
  {
    var lines := if text.None? then 0 else |Pieces(text.value)|;
    if y + v.rowOffset >= lines then
      if empty && y == v.rows / 3 then WelcomeRow(v.cols) else "~"
    else Visible(Pieces(text.value)[y + v.rowOffset], v.colOffset, v.cols)
  }

  /** Every text row fits the screen width and holds no line break. */
  lemma RowFits(text: seq<char>, empty: bool, v: View, y: nat)
    requires y + v.rowOffset < |Pieces(text)|
    ensures |Row(Some(text), empty, v, y)| <= v.cols && '\n' !in Row(Some(text), empty, v, y)
  {
    PiecesCount(text);
    var line := Pieces(text)[y + v.rowOffset];
    var row := Row(Some(text), empty, v, y);
    if v.colOffset < |line| {
      assert row == line[v.colOffset..v.colOffset + |row|];
      assert forall i | 0 <= i < |row| :: row[i] == line[v.colOffset + i];
    }
  }

  /**
   * Unscrolled, with every line fitting the screen, the first rows are the
   * text's lines: put back together with '\n's they give the whole text.
   */
  lemma {:induction false} RowsShowText(text: seq<char>, empty: bool, v: View)
    requires v.rowOffset == 0 && v.colOffset == 0
    requires forall k | 0 <= k < |Pieces(text)| :: |Pieces(text)[k]| <= v.cols
    ensures Interleave(seq(|Pieces(text)|, y requires 0 <= y < |Pieces(text)| => Row(Some(text), empty, v, y))) == text
  {
    var shown := seq(|Pieces(text)|, y requires 0 <= y < |Pieces(text)| => Row(Some(text), empty, v, y));
    forall y | 0 <= y < |Pieces(text)|
      ensures shown[y] == Pieces(text)[y]
    {
      assert Pieces(text)[y][0..] == Pieces(text)[y];
    }
    assert shown == Pieces(text);
    PiecesInterleave(text);
  }

  /** With the terminator right after the text and none inside it, the C string is the text. */
  lemma TerminatedText(s: seq<char>, size: nat)
    requires size < |s| && s[size] == '\0' && forall i | 0 <= i < size :: s[i] != '\0'
    ensures '\0' in s && CString(s) == s[..size]
  {
  }

  /** `get_num_lines`: 0 for a null buffer, else one more than there are '\n's. */
  method NumLines(buffer: array?<char>) returns (count: nat)
    requires buffer != null ==> '\0' in buffer[..]
    ensures count == if buffer == null then 0 else |Pieces(CString(buffer[..]))|
  {
    if buffer == null {
      return 0;
    }
    ghost var text := CString(buffer[..]);
    // The bound is `strlen(buffer)`, re-evaluated each round on a buffer that does not change.
    var len := Strlen(buffer);
    count := 1;
    for i := 0 to len
      invariant count == 1 + NewlineCount(text[..i])
    {
      assert text[..i + 1] == text[..i] + [text[i]];
      NewlineCountSplit(text[..i], [text[i]]);
      assert NewlineCount([text[i]]) == (if text[i] == '\n' then 1 else 0) by {
        assert [text[i]][1..] == [];
      }
      if buffer[i] == '\n' {
        count := count + 1;
      }
    }
    assert text[..len] == text;
    PiecesCount(text);
  }

  /** `strchr(buffer + from, '\n')`: the next '\n' before the terminator, as an offset. */
  method NextNewline(buffer: array<char>, from: nat) returns (r: Option<nat>)
    requires '\0' in buffer[..] && from <= |CString(buffer[..])|
    ensures var text := CString(buffer[..]);
      r == if BreakFrom(text, from) < |text| then Some(BreakFrom(text, from)) else None
  {
    ghost var text := CString(buffer[..]);
    var p := from;
    while buffer[p] != '\0' && buffer[p] != '\n'
      invariant from <= p <= |text| && forall i | from <= i < p :: text[i] != '\n'
      decreases |text| - p
    {
      p := p + 1;
    }
    BreakAt(text, from, p);
    if buffer[p] == '\n' {
      r := Some(p);
    } else {
      r := None;
    }
  }

  /** `get_line`: where line `line` starts, found by hopping over line breaks; nothing past the last line. */
  method GetLine(buffer: array?<char>, line: nat) returns (r: Option<nat>)
    requires buffer != null ==> '\0' in buffer[..]
    ensures buffer == null ==> r == None
    ensures buffer != null ==> r == LineStart(CString(buffer[..]), 0, line)
  {
    if buffer == null {
      return None;
    }
    ghost var text := CString(buffer[..]);
    var current: nat := 0;
    for i := 0 to line
      invariant current <= |text|
      invariant LineStart(text, 0, line) == LineStart(text, current, line - i)
    {
      var eol := NextNewline(buffer, current);
      if eol.None? {
        return None;
      }
      current := eol.value + 1;
    }
    r := Some(current);
  }

  class Editor {
    var buffer: array?<char>
    var bufferSize: nat
    var cursorX: nat
    var cursorY: nat
    var filename: Option<seq<char>>
    var screenRows: nat
    var screenCols: nat
    var rowOffset: nat
    var colOffset: nat

    /** A null buffer is empty; otherwise it has room for the text and a terminator; the cursor lies within the text. */
    ghost predicate Valid()
      reads this, buffer
    {
      && (buffer == null ==> bufferSize == 0)
      && (buffer != null ==> bufferSize < buffer.Length)
      && cursorX <= bufferSize
      && screenRows >= 1
    }

    /** The terminator sits right after the text and nowhere inside it, as `strlen` and `strchr` need. */
    ghost predicate Terminated()
      reads this, buffer
      requires Valid()
    {
      buffer != null ==> buffer[bufferSize] == '\0' && forall i | 0 <= i < bufferSize :: buffer[i] != '\0'
    }

    /** The text being edited. */
    ghost function Text(): seq<char>
      reads this, buffer
      requires Valid()
    {
      if buffer == null then [] else buffer[..bufferSize]
    }

    ghost function Geometry(): View
      reads this
    {
      View(screenRows, screenCols, rowOffset, colOffset)
    }

    /** `editor_init`: an empty, unnamed editor on a 24 by 80 screen, unscrolled. */
    constructor ()
      ensures Valid() && Terminated() && buffer == null && Text() == []
      ensures cursorX == 0 && cursorY == 0 && filename == None
      ensures Geometry() == View(24, 80, 0, 0)
    {
      buffer := null;
      bufferSize := 0;
      cursorX := 0;
      cursorY := 0;
      filename := None;
      screenRows := 24;
      screenCols := 80;
      rowOffset := 0;
      colOffset := 0;
    }

    /**
     * `editor_insert_char`: a missing buffer is first allocated one byte; the
     * buffer is then grown to hold two more, the text from the cursor on is
     * moved one place right, `c` goes in at the cursor, and the text is
     * terminated again. If the first allocation is refused nothing changes;
     * if growing is refused the text is unchanged, but a buffer allocated
     * just now stays, holding no terminator.
     */
    method InsertChar(c: char, mallocGranted: bool, reallocGranted: bool)
      requires Valid()
      modifies this, buffer
      ensures Valid()
      ensures var obtained := old(buffer) != null || mallocGranted;
        && (!obtained ==> buffer == null && Text() == [] && cursorX == old(cursorX))
        && (obtained && !reallocGranted ==> buffer != null && Text() == old(Text()) && cursorX == old(cursorX))
        && (obtained && !reallocGranted && old(buffer) != null ==> buffer == old(buffer) && unchanged(buffer))
        && (obtained && reallocGranted ==>
              fresh(buffer) && buffer[bufferSize] == '\0' && cursorX == old(cursorX) + 1 &&
              Text() == old(Text())[..old(cursorX)] + [c] + old(Text())[old(cursorX)..])
      ensures c != '\0' && old(Terminated()) ==>
        Terminated() || (old(buffer) == null && buffer != null && buffer.Length == 1 && bufferSize == 0)
      ensures cursorY == old(cursorY) && filename == old(filename) && Geometry() == old(Geometry())
    {
      if buffer == null {
        if !mallocGranted {
          return;
        }
        buffer := new char[1];
        bufferSize := 0;
      }
      if !reallocGranted {
        return;
      }
      buffer := GrowAndInsert(buffer, bufferSize, cursorX, c);
      bufferSize := bufferSize + 1;
      cursorX := cursorX + 1;
    }

    /**
     * The growing part of `editor_insert_char`: `realloc` to `size + 2`
     * cells, the `memmove` of the cells from `at` one place right, `c` at
     * `at`, and the terminator after the longer text.
     */
    static method GrowAndInsert(block: array<char>, size: nat, at: nat, c: char) returns (grown: array<char>)
      requires at <= size < block.Length
      ensures fresh(grown) && grown.Length == size + 2
      ensures grown[..size + 1] == block[..at] + [c] + block[at..size] && grown[size + 1] == '\0'
      ensures c != '\0' && (forall i | 0 <= i < size :: block[i] != '\0') ==> forall i | 0 <= i < size + 1 :: grown[i] != '\0'
    {
      grown := Realloc(block, size, size + 2);
      ghost var copied := grown[..];
      ShiftRight(grown, at, size);
      ghost var shifted := grown[..];
      grown[at] := c;
      grown[size + 1] := '\0';
      assert copied[..at] == block[..at] && copied[at..size] == block[at..size] by {
        assert copied[..size] == block[..size];
        assert copied[..at] == copied[..size][..at] && block[..at] == block[..size][..at];
        assert copied[at..size] == copied[..size][at..] && block[at..size] == block[..size][at..];
      }
      InsertedCells(block[..size], shifted, grown[..], at, c);
    }

    /** The cells after the shift, `c` stored at `at` and the terminator after the text: the text with `c` inserted. */
    static lemma InsertedCells(text: seq<char>, shifted: seq<char>, cells: seq<char>, at: nat, c: char)
      requires at <= |text| && |shifted| == |text| + 2
      requires shifted[..at] == text[..at] && shifted[at + 1..|text| + 1] == text[at..]
      requires cells == shifted[at := c][|text| + 1 := '\0']
      ensures cells[..|text| + 1] == text[..at] + [c] + text[at..] && cells[|text| + 1] == '\0'
      ensures c != '\0' && (forall i | 0 <= i < |text| :: text[i] != '\0') ==> forall i | 0 <= i < |text| + 1 :: cells[i] != '\0'
    {
      var inserted := text[..at] + [c] + text[at..];
      forall i | 0 <= i < |text| + 1
        ensures cells[i] == inserted[i]
      {
        if i < at {
          assert shifted[i] == shifted[..at][i];
        } else if i > at {
          assert shifted[i] == shifted[at + 1..|text| + 1][i - at - 1];
        }
      }
    }

    /**
     * `editor_process_keypress` for the key read: Ctrl-Q quits; Ctrl-S saves
     * whenever there is a file name, the data being empty for a null buffer;
     * printable characters (32 to 126) are inserted at the cursor; other keys
     * are ignored.
     */
    method ProcessKeypress(key: byte, mallocGranted: bool, reallocGranted: bool) returns (outcome: KeyOutcome)
      requires Valid()
      modifies this, buffer
      ensures Valid()
      ensures key == 0 ==> outcome == NoKey && Text() == old(Text()) && buffer == old(buffer)
      ensures key == KEY_CTRL_Q ==> outcome == Quit && Text() == old(Text()) && buffer == old(buffer)
      ensures key == KEY_CTRL_S ==> (buffer == old(buffer) && Text() == old(Text()) &&
        outcome == (if old(filename).Some? then Save(old(filename).value, old(Text())) else Handled))
      ensures 32 <= key < 127 ==> outcome == Handled
      ensures 32 <= key < 127 && (old(buffer) != null || mallocGranted) && reallocGranted ==>
        Text() == old(Text())[..old(cursorX)] + [key as char] + old(Text())[old(cursorX)..] && cursorX == old(cursorX) + 1
      ensures 32 <= key < 127 && !((old(buffer) != null || mallocGranted) && reallocGranted) ==>
        Text() == old(Text()) && cursorX == old(cursorX)
      ensures !(32 <= key < 127) ==> cursorX == old(cursorX)
      ensures key !in {0, KEY_CTRL_Q, KEY_CTRL_S} && !(32 <= key < 127) ==>
        outcome == Handled && Text() == old(Text()) && buffer == old(buffer)
      ensures old(Terminated()) && key != 0 ==> Terminated() || (buffer.Length == 1 && bufferSize == 0)
      ensures cursorY == old(cursorY) && filename == old(filename) && Geometry() == old(Geometry())
    {
      if key == 0 {
        return NoKey;
      }
      if key == KEY_CTRL_Q {
        outcome := Quit;
      } else if key == KEY_CTRL_S {
        if filename.Some? {
          var data := if buffer == null then [] else buffer[..bufferSize];
          outcome := Save(filename.value, data);
        } else {
          outcome := Handled;
        }
      } else {
        if 32 <= key < 127 {
          InsertChar(key as char, mallocGranted, reallocGranted);
        }
        outcome := Handled;
      }
    }

    /**
     * The rows `editor_refresh_screen` writes above the status line: for
     * each screen row, the file line it shows (cut by the offsets and the
     * width), the welcome banner, or a '~'.
     */
    method RefreshRows() returns (rows: seq<seq<char>>)
      requires Valid() && Terminated()
      ensures |rows| == screenRows - 1
      ensures forall y | 0 <= y < |rows| ::
        rows[y] == Row(if buffer == null then None else Some(Text()), bufferSize == 0, Geometry(), y)
    {
      ghost var text := if buffer == null then None else Some(Text());
      if buffer != null {
        TerminatedText(buffer[..], bufferSize);
      }
      rows := [];
      for y := 0 to screenRows - 1
        invariant |rows| == y
        invariant forall j | 0 <= j < y :: rows[j] == Row(text, bufferSize == 0, Geometry(), j)
      {
        var row := ScreenRow(y);
        rows := rows + [row];
      }
    }

    /** One row of the refresh. */
    method ScreenRow(y: nat) returns (row: seq<char>)
      requires Valid() && Terminated()
      ensures row == Row(if buffer == null then None else Some(Text()), bufferSize == 0, Geometry(), y)
    {
      var v := View(screenRows, screenCols, rowOffset, colOffset);
      if buffer == null {
        row := PastEnd(bufferSize == 0, v, y);
      } else {
        TerminatedText(buffer[..], bufferSize);
        row := TextRow(buffer, bufferSize == 0, v, y);
      }
    }

    /** A row below the last line of the file: the welcome line a third of the way down an empty editor, else a tilde. */
    static method PastEnd(empty: bool, v: View, y: nat) returns (row: seq<char>)
      ensures row == Row(None, empty, v, y)
    {
      if empty && y == v.rows / 3 {
        row := WelcomeRow(v.cols);
      } else {
        row := "~";
      }
    }

    /** A row of the refresh over a text: the file line it shows, or what fills the screen below the last one. */
    static method TextRow(buffer: array<char>, empty: bool, v: View, y: nat) returns (row: seq<char>)
      requires '\0' in buffer[..]
      ensures row == Row(Some(CString(buffer[..])), empty, v, y)
    {
      var filerow := y + v.rowOffset;
      var lines := NumLines(buffer);
      if filerow >= lines {
        if empty && y == v.rows / 3 {
          row := WelcomeRow(v.cols);
        } else {
          row := "~";
        }
      } else {
        row := FileRow(buffer, filerow, v.colOffset, v.cols);
      }
    }

    /** The row showing file line `filerow`: `get_line`, then the line cut by the column offset and the width. */
    static method FileRow(buffer: array<char>, filerow: nat, colOffset: nat, cols: nat) returns (row: seq<char>)
      requires '\0' in buffer[..] && filerow < |Pieces(CString(buffer[..]))|
      ensures row == Visible(Pieces(CString(buffer[..]))[filerow], colOffset, cols)
    {
      ghost var text := CString(buffer[..]);
      var start := GetLine(buffer, filerow);
      LineStartPieces(text, 0, filerow);
      PiecesAtRest(text, 0);
      assert text[0..] == text;
      row := LineRow(buffer, start.value, colOffset, cols);
    }

    /** The row for the line starting at `start`: its characters up to the next '\n' or the terminator, cut by the column offset and the width. */
    static method LineRow(buffer: array<char>, start: nat, colOffset: nat, cols: nat) returns (row: seq<char>)
      requires '\0' in buffer[..] && start <= |CString(buffer[..])|
      ensures var text := CString(buffer[..]); row == Visible(text[start..BreakFrom(text, start)], colOffset, cols)
    {
      ghost var text := CString(buffer[..]);
      var len := LineLength(buffer, start);
      var shown := 0;
      row := [];
      if len > colOffset {
        shown := len - colOffset;
        if shown > cols {
          shown := cols;
        }
        row := buffer[start + colOffset..start + colOffset + shown];
      }
      ghost var line := text[start..BreakFrom(text, start)];
      assert line == buffer[start..start + len];
      ShownPart(buffer[..], line, start, colOffset, cols, shown, row);
    }

    /** The characters a row copies out of the line are the part of it the row shows. */
    static lemma ShownPart(cells: seq<char>, line: seq<char>, start: nat, colOffset: nat, cols: nat, shown: nat, row: seq<char>)
      requires start + |line| <= |cells| && line == cells[start..start + |line|]
      requires shown == if |line| > colOffset then (if |line| - colOffset > cols then cols else |line| - colOffset) else 0
      requires row == if |line| > colOffset then cells[start + colOffset..start + colOffset + shown] else []
      ensures row == Visible(line, colOffset, cols)
    {
      if |line| > colOffset {
        SliceOfSlice(cells, start, start + |line|, colOffset, colOffset + shown);
      }
    }

    /** The length of the line starting at `start`: up to the next '\n', or to the terminator (`strlen`) on the last line. */
    static method LineLength(buffer: array<char>, start: nat) returns (len: nat)
      requires '\0' in buffer[..] && start <= |CString(buffer[..])|
      ensures var text := CString(buffer[..]);
        start + len == BreakFrom(text, start) && buffer[start..start + len] == text[start..start + len]
    {
      ghost var text := CString(buffer[..]);
      var eol := NextNewline(buffer, start);
      if eol.Some? {
        len := eol.value - start;
      } else {
        var total := Strlen(buffer);
        len := total - start;
      }
      assert text == buffer[..|text|];
      assert buffer[start..start + len] == text[start..start + len];
    }

    /** `realloc`: a fresh block of `newLength` cells that starts with the first `keep` cells of the old one. */
    static method Realloc(block: array<char>, keep: nat, newLength: nat) returns (grown: array<char>)
      requires keep <= block.Length && keep <= newLength
      ensures fresh(grown) && grown.Length == newLength && grown[..keep] == block[..keep]
    {
      grown := new char[newLength];
      for i := 0 to keep
        invariant grown[..i] == block[..i]
      {
        grown[i] := block[i];
      }
    }

    /** `memmove` of the cells `from..size` one place right, last cell first. */
    static method ShiftRight(a: array<char>, from: nat, size: nat)
      requires from <= size && size < a.Length
      modifies a
      ensures a[..from] == old(a[..from])
      ensures a[from + 1..size + 1] == old(a[from..size])
      ensures a[size + 1..] == old(a[size + 1..])
    {
      var i := size;
      while i > from
        invariant from <= i <= size
        invariant a[..i] == old(a[..i])
        invariant a[i + 1..size + 1] == old(a[i..size])
        invariant a[size + 1..] == old(a[size + 1..])
      {
        a[i] := a[i - 1];
        i := i - 1;
      }
    }
  }
}
