/** The text console: a 25-row screen over a ring of 100 history rows, against an unbounded transcript. */
module Console {
  import opened Words

  const WIDTH: nat := 80
  const HEIGHT: nat := 25
  const HISTORY: nat := 100

  /** A screen cell. The character is sign-extended to 16 bits, so a byte of 0x80 and above overwrites the colour. */
  function Cell(b: nat, color: nat): nat { if b >= 0x80 then 0xFF00 + b % 256 else b + 256 * color }

  type Row = seq<nat>

  function Blank(color: nat): (r: Row)
    ensures |r| == WIDTH && forall i :: 0 <= i < WIDTH ==> r[i] == Cell(32, color)
  {
    seq(WIDTH, _ => Cell(32, color))
  }

  function Blanks(n: nat, color: nat): (rs: seq<Row>)
    ensures |rs| == n && forall i :: 0 <= i < n ==> rs[i] == Blank(color)
  {
    seq(n, _ => Blank(color))
  }

  // ---------- Cursor movement, shared by screen and transcript ----------

  /** What one byte does: write a cell at the cursor or not, and where the cursor goes; the row may be one too
      far down. `top` is the first row the cursor may go back to. */
  datatype Move = Move(write: bool, row: nat, col: nat)

  function Wrapped(write: bool, row: nat, col: nat): Move {
    if col >= WIDTH then Move(write, row + 1, 0) else Move(write, row, col)
  }

  function MoveFor(b: nat, top: nat, row: nat, col: nat): Move {
    if b == 10 then Wrapped(false, row + 1, 0)
    else if b == 13 then Wrapped(false, row, 0)
    else if b == 9 then
      var c := (col + 8) / 8 * 8;
      if c >= WIDTH then Wrapped(false, row + 1, 0) else Wrapped(false, row, c)
    else if b == 8 then
      if col > 0 then Wrapped(false, row, col - 1)
      else if row > top then Wrapped(false, row - 1, WIDTH - 1)
      else Wrapped(false, row, col)
    else if b >= 32 then Wrapped(true, row, col + 1)
    else Wrapped(false, row, col)
  }

  /** From a cursor on the screen the row never overshoots by more than one. */
  lemma MoveStaysClose(b: nat, top: nat, row: nat, col: nat)
    requires top <= row && col < WIDTH
    ensures var m := MoveFor(b, top, row, col); top <= m.row <= row + 1 && m.col < WIDTH
  {
  }

  /** Counting cells in reading order, a printable byte advances by one, a backspace goes back by one down to
      the first cell, a tab goes to the next multiple of 8, a newline to the next row start, a return to the
      current row start. */
  lemma MoveInReadingOrder(b: nat, top: nat, row: nat, col: nat)
    requires top <= row && col < WIDTH
    ensures var m := MoveFor(b, top, row, col); var pos := row * WIDTH + col;
            && (m.write <==> b >= 32)
            && m.row * WIDTH + m.col ==
               if b >= 32 then pos + 1
               else if b == 8 then (if pos > top * WIDTH then pos - 1 else pos)
               else if b == 9 then pos / 8 * 8 + 8
               else if b == 10 then pos / WIDTH * WIDTH + WIDTH
               else if b == 13 then pos / WIDTH * WIDTH
               else pos
  {
    assert (row * WIDTH + col) / WIDTH == row;
    assert (row * WIDTH + col) / 8 == row * 10 + col / 8;
  }

  predicate AllWide(rows: seq<Row>) { forall i :: 0 <= i < |rows| ==> |rows[i]| == WIDTH }

  function Written(rows: seq<Row>, row: nat, col: nat, cell: nat): seq<Row>
    requires row < |rows| && col < |rows[row]|
  {
    var line: Row := rows[row][col := cell];
    rows[row := line]
  }

  // ---------- The screen ----------

  datatype Screen = Screen(history: seq<Row>, rows: seq<Row>, row: nat, col: nat, color: nat)

  ghost predicate IsScreen(s: Screen) {
    && |s.history| <= HISTORY && |s.rows| == HEIGHT && s.row < HEIGHT && s.col < WIDTH
    && AllWide(s.rows)
  }

  /** console_scroll: the top row moves into the history, whose oldest row gives way when it is full. */
  function Scroll(s: Screen): Screen
    requires s.rows != []
  {
    var kept := if |s.history| < HISTORY || s.history == [] then s.history else s.history[1..];
    s.(history := kept + [s.rows[0]], rows := s.rows[1..] + [Blank(s.color)])
  }

  /** The byte written and the cursor moved, perhaps below the last row. */
  function Moved(s: Screen, b: nat): (s': Screen)
    requires IsScreen(s)
    ensures |s'.rows| == HEIGHT && AllWide(s'.rows) && s'.row <= HEIGHT && s'.col < WIDTH
    ensures s'.history == s.history && s'.color == s.color
  {
    MoveStaysClose(b, 0, s.row, s.col);
    var m := MoveFor(b, 0, s.row, s.col);
    var rows := if m.write then Written(s.rows, s.row, s.col, Cell(b, s.color)) else s.rows;
    s.(rows := rows, row := m.row, col := m.col)
  }

  function Put(s: Screen, b: nat): (s': Screen)
    requires IsScreen(s)
    ensures IsScreen(s')
  {
    var moved := Moved(s, b);
    if moved.row >= HEIGHT then Scroll(moved).(row := HEIGHT - 1) else moved
  }

  function Cleared(s: Screen): Screen { s.(rows := Blanks(HEIGHT, s.color), row := 0, col := 0) }

  // ---------- The transcript ----------

  /** All rows ever shown, the last 25 of them on the screen; the cursor row counts from the first row. */
  datatype Transcript = Transcript(rows: seq<Row>, row: nat, col: nat, color: nat)

  ghost predicate IsTranscript(t: Transcript) {
    && |t.rows| >= HEIGHT && |t.rows| - HEIGHT <= t.row < |t.rows| && t.col < WIDTH
    && AllWide(t.rows)
  }

  function TranscriptPut(t: Transcript, b: nat): (t': Transcript)
    requires IsTranscript(t)
    ensures IsTranscript(t')
  {
    MoveStaysClose(b, |t.rows| - HEIGHT, t.row, t.col);
    var m := MoveFor(b, |t.rows| - HEIGHT, t.row, t.col);
    var rows := if m.write then Written(t.rows, t.row, t.col, Cell(b, t.color)) else t.rows;
    Transcript(if m.row == |rows| then rows + [Blank(t.color)] else rows, m.row, m.col, t.color)
  }

  function TranscriptCleared(t: Transcript): Transcript
    requires |t.rows| >= HEIGHT
  {
    var top := |t.rows| - HEIGHT;
    Transcript(t.rows[..top] + Blanks(HEIGHT, t.color), top, 0, t.color)
  }

  // ---------- Refinement ----------

  /** History followed by screen is exactly the last rows of the transcript: all of them, or 125. */
  ghost predicate Shows(s: Screen, t: Transcript) {
    && IsScreen(s) && IsTranscript(t)
    && |s.history| == Min(HISTORY, |t.rows| - HEIGHT)
    && s.history + s.rows == t.rows[|t.rows| - |s.history| - HEIGHT..]
    && t.row == |t.rows| - HEIGHT + s.row && t.col == s.col && t.color == s.color
  }

  lemma MoveShifts(b: nat, top: nat, row: nat, col: nat)
    requires col < WIDTH
    ensures var m, n := MoveFor(b, 0, row, col), MoveFor(b, top, top + row, col);
            n == m.(row := top + m.row)
  {
  }

  lemma WriteShows(s: Screen, t: Transcript, cell: nat)
    requires Shows(s, t)
    ensures Shows(s.(rows := Written(s.rows, s.row, s.col, cell)), t.(rows := Written(t.rows, t.row, t.col, cell)))
  {
    var h := |s.history|;
    var from := |t.rows| - h - HEIGHT;
    var shown := s.history + s.rows;
    assert shown[h + s.row] == s.rows[s.row] && t.rows[from..][h + s.row] == t.rows[t.row];
    var row: Row := s.rows[s.row][s.col := cell];
    assert s.history + s.rows[s.row := row] == shown[h + s.row := row];
    assert t.rows[t.row := row][from..] == t.rows[from..][h + s.row := row];
  }

  lemma ShiftWindow(h: seq<Row>, rows: seq<Row>, x: Row, skip: nat)
    requires skip <= |h| && rows != []
    ensures (h[skip..] + [rows[0]]) + (rows[1..] + [x]) == (h + rows)[skip..] + [x]
  {
  }

  lemma WindowOfAppended(rows: seq<Row>, x: Row, from: nat, skip: nat)
    requires from + skip <= |rows|
    ensures (rows + [x])[from + skip..] == rows[from..][skip..] + [x]
  {
  }

  lemma ScrollShows(s: Screen, t: Transcript)
    requires Shows(s, t)
    ensures Shows(Scroll(s), t.(rows := t.rows + [Blank(t.color)], row := t.row + 1))
  {
    hide Blank;
    var blank := Blank(s.color);
    var s', t' := Scroll(s), t.(rows := t.rows + [blank], row := t.row + 1);
    var h, n := |s.history|, |t.rows|;
    var skip := if h < HISTORY then 0 else 1;
    var from := n - h - HEIGHT;
    assert s'.history == s.history[skip..] + [s.rows[0]] && s'.rows == s.rows[1..] + [blank];
    ShiftWindow(s.history, s.rows, blank, skip);
    WindowOfAppended(t.rows, blank, from, skip);
    assert |t'.rows| - |s'.history| - HEIGHT == from + skip;
    assert AllWide(s'.rows) && AllWide(t'.rows);
  }

  lemma MovedShows(s: Screen, t: Transcript, row: nat, col: nat)
    requires Shows(s, t) && row < HEIGHT && col < WIDTH
    ensures Shows(s.(row := row, col := col), t.(row := |t.rows| - HEIGHT + row, col := col))
  {
  }

  lemma PutShows(s: Screen, t: Transcript, b: nat)
    requires Shows(s, t)
    ensures Shows(Put(s, b), TranscriptPut(t, b))
  {
    hide Shows, MoveFor, Cell, Blank, Scroll;
    ShowsFacts(s, t);
    var top := |t.rows| - HEIGHT;
    MoveStaysClose(b, 0, s.row, s.col);
    MoveShifts(b, top, s.row, s.col);
    var m := MoveFor(b, 0, s.row, s.col);
    var cell := Cell(b, s.color);
    WriteShows(s, t, cell);
    var s1 := if m.write then s.(rows := Written(s.rows, s.row, s.col, cell)) else s;
    var t1 := if m.write then t.(rows := Written(t.rows, t.row, t.col, cell)) else t;
    if m.row >= HEIGHT {
      MovedShows(s1, t1, HEIGHT - 1, m.col);
      var s2, t2 := s1.(row := HEIGHT - 1, col := m.col), t1.(row := top + HEIGHT - 1, col := m.col);
      ScrollShows(s2, t2);
      ScrollKeepsCursor(s1, m.row, m.col);
    } else {
      MovedShows(s1, t1, m.row, m.col);
    }
  }

  lemma ScrollKeepsCursor(s: Screen, row: nat, col: nat)
    requires s.rows != []
    ensures Scroll(s.(row := HEIGHT - 1, col := col)) == Scroll(s.(row := row, col := col)).(row := HEIGHT - 1)
  {
  }

  lemma ShowsFacts(s: Screen, t: Transcript)
    requires Shows(s, t)
    ensures IsScreen(s) && IsTranscript(t) && t.row == |t.rows| - HEIGHT + s.row && t.col == s.col && t.color == s.color
  {
  }

  lemma ClearShows(s: Screen, t: Transcript)
    requires Shows(s, t)
    ensures Shows(Cleared(s), TranscriptCleared(t))
  {
    var top := |t.rows| - HEIGHT;
    var from := top - |s.history|;
    var blanks := Blanks(HEIGHT, s.color);
    assert t.rows[from..][..|s.history|] == s.history;
    assert t.rows[..top][from..] == s.history;
    assert (t.rows[..top] + blanks)[from..] == s.history + blanks;
  }

  // ---------- Runs ----------

  datatype Op = Char(b: nat) | SetColor(color: nat) | Clear

  function Apply(s: Screen, op: Op): (s': Screen)
    requires IsScreen(s)
    ensures IsScreen(s')
  {
    match op
    case Char(b) => Put(s, b)
    case SetColor(c) => s.(color := c)
    case Clear => Cleared(s)
  }

  function ApplyTranscript(t: Transcript, op: Op): (t': Transcript)
    requires IsTranscript(t)
    ensures IsTranscript(t')
  {
    match op
    case Char(b) => TranscriptPut(t, b)
    case SetColor(c) => t.(color := c)
    case Clear => TranscriptCleared(t)
  }

  lemma StepShows(s: Screen, t: Transcript, op: Op)
    requires Shows(s, t)
    ensures Shows(Apply(s, op), ApplyTranscript(t, op))
  {
    match op
    case Char(b) => PutShows(s, t, b);
    case SetColor(c) =>
    case Clear => ClearShows(s, t);
  }

  function Run(s: Screen, ops: seq<Op>): (s': Screen)
    requires IsScreen(s)
    ensures IsScreen(s')
    decreases |ops|
  {
    if ops == [] then s else Run(Apply(s, ops[0]), ops[1..])
  }

  function RunTranscript(t: Transcript, ops: seq<Op>): (t': Transcript)
    requires IsTranscript(t)
    ensures IsTranscript(t')
    decreases |ops|
  {
    if ops == [] then t else RunTranscript(ApplyTranscript(t, ops[0]), ops[1..])
  }

  lemma {:induction false} RunsShow(s: Screen, t: Transcript, ops: seq<Op>)
    requires Shows(s, t)
    ensures Shows(Run(s, ops), RunTranscript(t, ops))
    decreases |ops|
  {
    hide Apply, ApplyTranscript;
    if ops != [] {
      StepShows(s, t, ops[0]);
      RunsShow(Apply(s, ops[0]), ApplyTranscript(t, ops[0]), ops[1..]);
    }
  }

  /** console_init: white on black, all blank, no history. */
  function InitialScreen(): Screen { Screen([], Blanks(HEIGHT, 15), 0, 0, 15) }

  function InitialTranscript(): Transcript { Transcript(Blanks(HEIGHT, 15), 0, 0, 15) }

  /** After every run from console_init the cursor is on the screen, and history and screen together are the
      last rows of the unbounded transcript of that run, at most 125 of them. */
  lemma ConsoleShowsTranscript(ops: seq<Op>)
    ensures IsScreen(InitialScreen()) && IsTranscript(InitialTranscript())
    ensures var s := Run(InitialScreen(), ops); var t := RunTranscript(InitialTranscript(), ops);
            && s.row < HEIGHT && s.col < WIDTH
            && |s.history| + 25 == Min(125, |t.rows|)
            && s.history + s.rows == t.rows[|t.rows| - |s.history| - HEIGHT..]
            && t.row == |t.rows| - HEIGHT + s.row && t.col == s.col
  {
    hide Run, RunTranscript, Blanks, AllWide, InitialScreen, InitialTranscript;
    InitShows();
    RunsShow(InitialScreen(), InitialTranscript(), ops);
  }

  lemma InitShows()
    ensures Shows(InitialScreen(), InitialTranscript())
  {
    hide Cell;
    var s, t := InitialScreen(), InitialTranscript();
    assert t.rows[0..] == t.rows && s.history + s.rows == s.rows;
  }

  /** On the last row: a newline, a tab from column 72 on, or a printable byte in the last column. */
  predicate Overflows(s: Screen, b: nat) {
    s.row == HEIGHT - 1 && (b == 10 || (b == 9 && s.col >= WIDTH - 8) || (b >= 32 && s.col == WIDTH - 1))
  }

  /** A byte changes no row but the cursor's. Exactly when it overflows, all rows move up by one, the top row is the
      last of the history and a blank row comes in below; otherwise the history stays. */
  lemma PutMovesRows(s: Screen, b: nat)
    requires IsScreen(s)
    ensures var s' := Put(s, b); var up := if Overflows(s, b) then 1 else 0;
            && (forall i :: up <= i < HEIGHT && i != s.row ==> s'.rows[i - up] == s.rows[i])
            && (if Overflows(s, b) then
                  && s'.history != [] && s'.history[|s'.history| - 1] == s.rows[0]
                  && s'.rows[HEIGHT - 1] == Blank(s.color) && s'.row == HEIGHT - 1
                else s'.history == s.history)
  {
    hide Cell, Blank;
    OverflowMoves(s, b);
  }

  /** What a screen word holds: the byte below, and above it the colour, or 0xFF for bytes of 0x80 and more. */
  lemma CellHolds(b: nat, color: nat)
    requires b < 256
    ensures Cell(b, color) % 256 == b && Cell(b, color) / 256 == if b < 0x80 then color else 0xFF
  {
  }

  /** 80 spaces of one colour. */
  ghost predicate HasSpaces(row: Row, color: nat) {
    |row| == 80 && forall c :: 0 <= c < 80 ==> row[c] % 256 == 32 && row[c] / 256 == color
  }

  /** A byte of 32 and above is left at the cursor, in the current colour, and nothing else in that row changes; any
      other byte changes no cell of it. A row that comes in is blank. */
  lemma PutWrites(s: Screen, b: nat)
    requires IsScreen(s) && b < 256
    ensures var s' := Put(s, b); var row := s'.rows[if Overflows(s, b) then s.row - 1 else s.row];
            && |row| == WIDTH
            && (forall c :: 0 <= c < WIDTH && !(b >= 32 && c == s.col) ==> row[c] == s.rows[s.row][c])
            && (b >= 32 ==> row[s.col] % 256 == b && row[s.col] / 256 == if b < 0x80 then s.color else 0xFF)
            && (Overflows(s, b) ==> HasSpaces(s'.rows[HEIGHT - 1], s.color))
  {
    OverflowMoves(s, b);
    CellHolds(b, s.color);
    CellHolds(32, s.color);
  }

  /** Clearing leaves 25 rows of spaces in the current colour, the cursor at the top left and the history alone. */
  lemma ClearedIsBlank(s: Screen)
    ensures var s' := Cleared(s);
            && s'.row == 0 && s'.col == 0 && s'.color == s.color && s'.history == s.history && |s'.rows| == 25
            && (forall r :: 0 <= r < 25 ==> HasSpaces(s'.rows[r], s.color))
  {
    hide Cell;
    CellHolds(32, s.color);
  }

  lemma OverflowMoves(s: Screen, b: nat)
    requires IsScreen(s)
    ensures Moved(s, b).row >= HEIGHT <==> Overflows(s, b)
  {
  }

  // ---------- The screen in memory ----------

  /** Row r of a flat buffer. */
  function RowOf(cells: seq<nat>, r: nat): (row: Row)
    requires (r + 1) * WIDTH <= |cells|
    ensures |row| == WIDTH && forall c :: 0 <= c < WIDTH ==> row[c] == cells[r * WIDTH + c]
  {
    cells[r * WIDTH..(r + 1) * WIDTH]
  }

  function RowsOf(cells: seq<nat>): (rows: seq<Row>)
    requires |cells| == HEIGHT * WIDTH
    ensures |rows| == HEIGHT && forall r :: 0 <= r < HEIGHT ==> rows[r] == RowOf(cells, r)
  {
    seq(HEIGHT, r requires 0 <= r < HEIGHT => RowOf(cells, r))
  }

  function Slot(i: nat): (k: nat)
    ensures k < HISTORY
  {
    i % HISTORY
  }

  function HistoryOf(cells: seq<nat>, start: nat, count: nat): (rows: seq<Row>)
    requires |cells| == HISTORY * WIDTH
    ensures |rows| == count && forall i :: 0 <= i < count ==> rows[i] == RowOf(cells, Slot(start + i))
  {
    seq(count, i requires 0 <= i < count => RowOf(cells, Slot(start + i)))
  }

  lemma CellWritten(cells: seq<nat>, row: nat, col: nat, cell: nat)
    requires |cells| == HEIGHT * WIDTH && row < HEIGHT && col < WIDTH
    ensures RowsOf(cells[row * WIDTH + col := cell]) == Written(RowsOf(cells), row, col, cell)
  {
    var after := cells[row * WIDTH + col := cell];
    forall r | 0 <= r < HEIGHT ensures RowsOf(after)[r] == Written(RowsOf(cells), row, col, cell)[r] {
      if r == row {
        var line: Row := RowOf(cells, row)[col := cell];
        assert RowOf(after, r) == line;
      } else {
        assert RowOf(after, r) == RowOf(cells, r);
      }
    }
  }

  /** cells' is cells with every row moved up by one and the last row blank. */
  lemma RowsMovedUp(cells: seq<nat>, cells': seq<nat>, color: nat)
    requires |cells| == |cells'| == HEIGHT * WIDTH
    requires forall p :: 0 <= p < (HEIGHT - 1) * WIDTH ==> cells'[p] == cells[p + WIDTH]
    requires forall p :: (HEIGHT - 1) * WIDTH <= p < HEIGHT * WIDTH ==> cells'[p] == Cell(32, color)
    ensures RowsOf(cells') == RowsOf(cells)[1..] + [Blank(color)]
  {
    hide Cell;
    forall r | 0 <= r < HEIGHT ensures RowsOf(cells')[r] == (RowsOf(cells)[1..] + [Blank(color)])[r] {
      if r < HEIGHT - 1 {
        assert RowOf(cells', r) == RowOf(cells, r + 1);
      } else {
        assert RowOf(cells', r) == Blank(color);
      }
    }
  }

  lemma RowsBlank(cells: seq<nat>, color: nat)
    requires |cells| == HEIGHT * WIDTH && forall p :: 0 <= p < |cells| ==> cells[p] == Cell(32, color)
    ensures RowsOf(cells) == Blanks(HEIGHT, color)
  {
    hide Cell;
    forall r | 0 <= r < HEIGHT ensures RowsOf(cells)[r] == Blanks(HEIGHT, color)[r] {
      assert RowOf(cells, r) == Blank(color);
    }
  }

  /** cells' is cells with history row k replaced. */
  ghost predicate RowReplaced(cells: seq<nat>, cells': seq<nat>, k: nat, row: Row)
    requires k < HISTORY && |cells| == |cells'| == HISTORY * WIDTH && |row| == WIDTH
  {
    && (forall c :: 0 <= c < WIDTH ==> cells'[k * WIDTH + c] == row[c])
    && (forall p :: 0 <= p < |cells| && !(k * WIDTH <= p < (k + 1) * WIDTH) ==> cells'[p] == cells[p])
  }

  lemma RowReplacedRows(cells: seq<nat>, cells': seq<nat>, k: nat, row: Row, j: nat)
    requires k < HISTORY && j < HISTORY && |cells| == |cells'| == HISTORY * WIDTH && |row| == WIDTH
    requires RowReplaced(cells, cells', k, row)
    ensures RowOf(cells', j) == if j == k then row else RowOf(cells, j)
  {
    if j != k {
      assert (j + 1) * WIDTH <= k * WIDTH || (k + 1) * WIDTH <= j * WIDTH;
    }
  }

  lemma SlotDistinct(start: nat, i: nat, j: nat)
    requires i < j < HISTORY
    ensures Slot(start + i) != Slot(start + j)
  {
  }

  lemma SlotNext(start: nat, i: nat)
    ensures Slot(Slot(start + 1) + i) == Slot(start + (i + 1))
  {
  }

  lemma HistoryAppended(cells: seq<nat>, cells': seq<nat>, start: nat, count: nat, row: Row)
    requires |cells| == |cells'| == HISTORY * WIDTH && |row| == WIDTH && count < HISTORY
    requires RowReplaced(cells, cells', Slot(start + count), row)
    ensures HistoryOf(cells', start, count + 1) == HistoryOf(cells, start, count) + [row]
  {
    hide RowReplaced, Slot;
    forall i | 0 <= i < count + 1
      ensures HistoryOf(cells', start, count + 1)[i] == (HistoryOf(cells, start, count) + [row])[i]
    {
      RowReplacedRows(cells, cells', Slot(start + count), row, Slot(start + i));
      if i < count {
        SlotDistinct(start, i, count);
      }
    }
  }

  lemma HistoryRotated(cells: seq<nat>, cells': seq<nat>, start: nat, row: Row)
    requires |cells| == |cells'| == HISTORY * WIDTH && |row| == WIDTH && start < HISTORY
    requires RowReplaced(cells, cells', start, row)
    ensures HistoryOf(cells', Slot(start + 1), HISTORY) == HistoryOf(cells, start, HISTORY)[1..] + [row]
  {
    hide RowReplaced, Slot, RowOf, HistoryOf;
    var h, h' := HistoryOf(cells, start, HISTORY), HistoryOf(cells', Slot(start + 1), HISTORY);
    SlotAtStart(start);
    forall i | 0 <= i < HISTORY
      ensures h'[i] == (h[1..] + [row])[i]
    {
      SlotNext(start, i);
      assert h'[i] == RowOf(cells', Slot(start + (i + 1)));
      RowReplacedRows(cells, cells', start, row, Slot(start + (i + 1)));
      if i < HISTORY - 1 {
        SlotDistinct(start, 0, i + 1);
        assert h[i + 1] == RowOf(cells, Slot(start + (i + 1)));
      }
    }
  }

  lemma SlotAtStart(start: nat)
    requires start < HISTORY
    ensures Slot(start) == start && Slot(start + HISTORY) == start && Slot(start + 0) == start
  {
  }

  class TextConsole {
    const vga: array<nat>
    const saved: array<nat>
    var start: nat
    var count: nat
    var row: nat
    var col: nat
    var color: nat

    ghost predicate Shaped()
      reads this
    {
      && vga != saved && vga.Length == HEIGHT * WIDTH && saved.Length == HISTORY * WIDTH
      && start < HISTORY && count <= HISTORY
    }

    ghost predicate Valid()
      reads this
    {
      Shaped() && row < HEIGHT && col < WIDTH
    }

    ghost function View(): Screen
      requires Shaped()
      reads this, vga, saved
    {
      Screen(HistoryOf(saved[..], start, count), RowsOf(vga[..]), row, col, color)
    }

    constructor ()
      ensures Valid() && View() == InitialScreen() && fresh(vga) && fresh(saved)
    {
      vga := new nat[HEIGHT * WIDTH](_ => Cell(32, 15));
      saved := new nat[HISTORY * WIDTH](_ => 0);
      start, count, row, col, color := 0, 0, 0, 0, 15;
      new;
      RowsBlank(vga[..], 15);
    }

    method ClearScreen()
      requires Valid()
      modifies this, vga
      ensures Valid() && View() == Cleared(old(View()))
    {
      hide Cell;
      for i := 0 to HEIGHT * WIDTH
        invariant Valid() && color == old(color) && start == old(start) && count == old(count)
        invariant forall p :: 0 <= p < i ==> vga[p] == Cell(32, color)
      {
        vga[i] := Cell(32, color);
      }
      RowsBlank(vga[..], color);
      row, col := 0, 0;
    }

    /** The copy of the top row into history row k. */
    method SaveTopRow(k: nat)
      requires Shaped() && k < HISTORY
      modifies saved
      ensures RowReplaced(old(saved[..]), saved[..], k, RowOf(vga[..], 0))
    {
      for c := 0 to WIDTH
        invariant forall i :: 0 <= i < c ==> saved[k * WIDTH + i] == vga[i]
        invariant forall p :: 0 <= p < saved.Length && !(k * WIDTH <= p < k * WIDTH + c) ==> saved[p] == old(saved[p])
      {
        saved[k * WIDTH + c] := vga[c];
      }
    }

    /** The copy of row r + 1 into row r. */
    method CopyRowUp(r: nat)
      requires Shaped() && r < HEIGHT - 1
      modifies vga
      ensures forall p :: 0 <= p < vga.Length ==>
                vga[p] == if r * WIDTH <= p < r * WIDTH + WIDTH then old(vga[p + WIDTH]) else old(vga[p])
    {
      for c := 0 to WIDTH
        invariant forall p :: 0 <= p < vga.Length ==>
                    vga[p] == if r * WIDTH <= p < r * WIDTH + c then old(vga[p + WIDTH]) else old(vga[p])
      {
        vga[r * WIDTH + c] := vga[(r + 1) * WIDTH + c];
      }
    }

    /** The row-by-row move of the screen, and the blank last row. */
    method MoveRowsUp()
      requires Shaped()
      modifies vga
      ensures RowsOf(vga[..]) == RowsOf(old(vga[..]))[1..] + [Blank(color)]
    {
      hide Cell;
      for r := 0 to HEIGHT - 1
        invariant forall p :: 0 <= p < vga.Length ==>
                    vga[p] == if p < r * WIDTH then old(vga[p + WIDTH]) else old(vga[p])
      {
        CopyRowUp(r);
      }
      BlankLastRow();
      RowsMovedUp(old(vga[..]), vga[..], color);
    }

    method BlankLastRow()
      requires Shaped()
      modifies vga
      ensures forall p :: 0 <= p < (HEIGHT - 1) * WIDTH ==> vga[p] == old(vga[p])
      ensures forall p :: (HEIGHT - 1) * WIDTH <= p < vga.Length ==> vga[p] == Cell(32, color)
    {
      hide Cell;
      for c := 0 to WIDTH
        invariant forall p :: 0 <= p < (HEIGHT - 1) * WIDTH ==> vga[p] == old(vga[p])
        invariant forall p :: (HEIGHT - 1) * WIDTH <= p < (HEIGHT - 1) * WIDTH + c ==> vga[p] == Cell(32, color)
      {
        vga[(HEIGHT - 1) * WIDTH + c] := Cell(32, color);
      }
    }

    /** The top row enters the history ring. */
    method SaveTop()
      requires Shaped()
      modifies `start, `count, saved
      ensures Shaped()
      ensures var h, top := old(HistoryOf(saved[..], start, count)), RowOf(vga[..], 0);
              HistoryOf(saved[..], start, count) == (if |h| < HISTORY then h else h[1..]) + [top]
    {
      hide RowReplaced, Slot, RowOf, HistoryOf;
      ghost var top := RowOf(vga[..], 0);
      if count < HISTORY {
        var k := (start + count) % HISTORY;
        SlotIs(start + count);
        SaveTopRow(k);
        HistoryAppended(old(saved[..]), saved[..], start, count, top);
        count := count + 1;
      } else {
        SaveTopRow(start);
        HistoryRotated(old(saved[..]), saved[..], start, top);
        SlotIs(start + 1);
        start := (start + 1) % HISTORY;
      }
    }

    method ScrollUp()
      requires Shaped()
      modifies this, vga, saved
      ensures Shaped() && View() == Scroll(old(View()))
    {
      hide Blank, HistoryOf, RowsOf, RowOf;
      SaveTop();
      assert vga[..] == old(vga[..]);
      MoveRowsUp();
    }

    /** The switch over the byte and the wrap at the end of a row. */
    method Advance(b: nat)
      requires Valid()
      modifies `row, `col, vga
      ensures View() == Moved(old(View()), b)
    {
      hide Cell, HistoryOf, RowsOf, RowOf;
      if b == 10 {
        col, row := 0, row + 1;
      } else if b == 13 {
        col := 0;
      } else if b == 9 {
        col := (col + 8) / 8 * 8;
        if col >= WIDTH {
          col, row := 0, row + 1;
        }
      } else if b == 8 {
        if col > 0 {
          col := col - 1;
        } else if row > 0 {
          row, col := row - 1, WIDTH - 1;
        }
      } else if b >= 32 {
        CellWritten(vga[..], row, col, Cell(b, color));
        ghost var before := vga[..];
        vga[row * WIDTH + col] := Cell(b, color);
        assert vga[..] == before[row * WIDTH + col := Cell(b, color)];
        col := col + 1;
      }
      if col >= WIDTH {
        col, row := 0, row + 1;
      }
    }

    method PutChar(b: nat) returns (scrolls: nat)
      requires Valid()
      modifies this, vga, saved
      ensures Valid() && View() == Put(old(View()), b)
      ensures scrolls == if Overflows(old(View()), b) then 1 else 0
    {
      hide Cell, HistoryOf, RowsOf, RowOf, Overflows, Moved;
      OverflowMoves(View(), b);
      Advance(b);
      scrolls := 0;
      while row >= HEIGHT
        invariant Shaped() && col < WIDTH && row <= HEIGHT
        invariant row >= HEIGHT ==> Overflows(old(View()), b)
        invariant scrolls == if row < HEIGHT && Overflows(old(View()), b) then 1 else 0
        invariant if row < HEIGHT then View() == Put(old(View()), b) else View() == Moved(old(View()), b)
        decreases if row >= HEIGHT then 1 else 0
      {
        ScrollUp();
        row := HEIGHT - 1;
        scrolls := scrolls + 1;
      }
    }
  }

  lemma SlotIs(i: nat)
    ensures Slot(i) == i % HISTORY
  {
  }
}
