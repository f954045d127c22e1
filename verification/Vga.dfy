/** kernel/drivers/vga.c: an 80x25 text screen that scrolls in place, and the unbounded terminal it
    shows the last 25 rows of. */
module Vga {
  import opened Words

  const COLS: nat := 80
  const ROWS: nat := 25
  const CELLS: nat := 2000
  const SPACE: u8 := 32

  type u16 = x: int | 0 <= x < 0x1_0000

  /** vga_entry */
  function Cell(ch: u8, color: u8): u16 {
    ch + 256 * color
  }

  /** A cell's low byte is its character, its high byte its colour. */
  lemma CellBytes(ch: u8, color: u8)
    ensures Cell(ch, color) % 256 == ch && Cell(ch, color) / 256 == color
  {
  }

  function Blank(n: nat, color: u8): (r: seq<u16>)
    ensures |r| == n && forall i | 0 <= i < n :: r[i] == Cell(SPACE, color)
  {
    if n == 0 then [] else Blank(n - 1, color) + [Cell(SPACE, color)]
  }

  /** What one character does to the cursor's row and column and to the cells at and before it, before
      any scrolling: a cell index to write and its value, if any. */
  datatype Effect = Effect(down: nat, col: nat, write: bool, at: nat, cell: u16)

  /** `\n`, `\r`, `\t`, `\b` and everything else. */
  function EffectOf(ch: u8, col: nat, color: u8): (e: Effect)
    requires col < COLS
    ensures e.col < COLS && e.down <= 1 && e.at < COLS
  {
    if ch == 10 then Effect(1, 0, false, 0, 0)
    else if ch == 13 then Effect(0, 0, false, 0, 0)
    else if ch == 9 then
      var c := (col + 8) / 8 * 8;
      if c >= COLS then Effect(1, 0, false, 0, 0) else Effect(0, c, false, 0, 0)
    else if ch == 8 then
      if col > 0 then Effect(0, col - 1, true, col - 1, Cell(SPACE, color)) else Effect(0, col, false, 0, 0)
    else if col + 1 >= COLS then Effect(1, 0, true, col, Cell(ch, color))
    else Effect(0, col + 1, true, col, Cell(ch, color))
  }

  // ---- the unbounded terminal ---------------------------------------------------------------------

  /** `n` rows of cells, growing at the bottom, never losing one; a cursor in one of them. */
  datatype Terminal = Terminal(cells: seq<u16>, n: nat, row: nat, col: nat, color: u8)

  ghost predicate TermOk(t: Terminal) {
    ROWS <= t.n && |t.cells| == COLS * t.n && t.n - ROWS <= t.row < t.n && t.col < COLS
  }

  function TermPut(t: Terminal, ch: u8): Terminal
    requires |t.cells| == COLS * t.n && t.row < t.n && t.col < COLS
  {
    var e := EffectOf(ch, t.col, t.color);
    var cells := if e.write then t.cells[COLS * t.row + e.at := e.cell] else t.cells;
    if t.row + e.down < t.n then Terminal(cells, t.n, t.row + e.down, e.col, t.color)
    else Terminal(cells + Blank(COLS, t.color), t.n + 1, t.row + e.down, e.col, t.color)
  }

  /** The cursor as a position in the text. */
  function Position(t: Terminal): nat {
    COLS * t.row + t.col
  }

  predicate Printable(ch: u8) {
    ch !in {8, 9, 10, 13}
  }

  /** What a terminal is: a printable character fills the cell at the cursor and advances it by one
      position; a newline goes to the start of the next row, a carriage return to the start of this one; a
      tab to the next multiple of 8 in the text; a backspace blanks the cell before, within the row. No
      other cell that existed changes. One row is appended, blank in the current colour, exactly when the
      cursor would pass the last row. */
  lemma TerminalLaw(t: Terminal, ch: u8, i: nat)
    requires TermOk(t) && i < |t.cells|
    ensures var u, p := TermPut(t, ch), Position(t);
            && i < |u.cells| && p < |t.cells|
            && Position(u) < |u.cells| && |u.cells| == |t.cells| + (if Position(u) >= |t.cells| then 80 else 0)
            && (forall j | |t.cells| <= j < |u.cells| :: u.cells[j] == Cell(32, t.color))
            && (Printable(ch) ==> Position(u) == p + 1 && u.cells[i] == if i == p then Cell(ch, t.color) else t.cells[i])
            && (ch == 10 ==> Position(u) == 80 * (t.row + 1) && u.cells[i] == t.cells[i])
            && (ch == 13 ==> Position(u) == 80 * t.row && u.cells[i] == t.cells[i])
            && (ch == 9 ==> p < Position(u) <= p + 8 && Position(u) % 8 == 0 && u.cells[i] == t.cells[i])
            && (ch == 8 ==> if t.col == 0 then u == t
                            else Position(u) == p - 1 && u.cells[i] == if i == p - 1 then Cell(32, t.color) else t.cells[i])
  {
  }

  /** Rows are 80 cells wide, before and after, a position is 80 times the row plus the column, and a
      character leaves the colour alone. */
  lemma TerminalShape(t: Terminal, ch: u8)
    requires TermOk(t)
    ensures Position(t) == 80 * t.row + t.col && t.col < 80 && t.row < t.n && |t.cells| == 80 * t.n
    ensures TermOk(TermPut(t, ch)) && TermPut(t, ch).color == t.color
  {
  }

  // ---- the screen -----------------------------------------------------------------------------------

  datatype Screen = Screen(cells: seq<u16>, row: nat, col: nat, color: u8)

  ghost predicate ScreenOk(s: Screen) {
    |s.cells| == CELLS && s.row < ROWS && s.col < COLS
  }

  /** vga_scroll: every row moves up, the last is blanked. */
  function Scrolled(cells: seq<u16>, color: u8): seq<u16>
    requires |cells| == CELLS
  {
    cells[COLS..] + Blank(COLS, color)
  }

  /** vga_putchar */
  function Put(s: Screen, ch: u8): Screen
    requires |s.cells| == CELLS && s.row < ROWS && s.col < COLS
  {
    var e := EffectOf(ch, s.col, s.color);
    var cells := if e.write then s.cells[COLS * s.row + e.at := e.cell] else s.cells;
    if s.row + e.down < ROWS then Screen(cells, s.row + e.down, e.col, s.color)
    else Screen(Scrolled(cells, s.color), ROWS - 1, e.col, s.color)
  }

  /** vga_clear */
  function Cleared(color: u8): Screen {
    Screen(Blank(CELLS, color), 0, 0, color)
  }

  /** The screen shows the terminal's last 25 rows and its cursor. */
  ghost predicate Shows(s: Screen, t: Terminal) {
    && TermOk(t)
    && s.cells == t.cells[80 * (t.n - 25)..]
    && s.row == t.row - (t.n - 25) && s.col == t.col && s.color == t.color
  }

  lemma PutShows(s: Screen, t: Terminal, ch: u8)
    requires Shows(s, t) && ScreenOk(s)
    ensures Shows(Put(s, ch), TermPut(t, ch))
  {
    var e, b := EffectOf(ch, t.col, t.color), COLS * (t.n - ROWS);
    assert COLS * s.row == COLS * t.row - b;
    var tc := if e.write then t.cells[COLS * t.row + e.at := e.cell] else t.cells;
    var sc := if e.write then s.cells[COLS * s.row + e.at := e.cell] else s.cells;
    assert sc == tc[b..];
    if t.row + e.down >= t.n {
      assert (tc + Blank(COLS, t.color))[b + COLS..] == Scrolled(sc, s.color);
    }
  }

  // ---- runs -------------------------------------------------------------------------------------------

  datatype Op = PutOp(ch: u8) | ColorOp(color: u8)

  function ScreenRun(s: Screen, ops: seq<Op>): (r: Screen)
    requires |s.cells| == CELLS && s.row < ROWS && s.col < COLS
    ensures |r.cells| == CELLS && r.row < ROWS && r.col < COLS
    decreases |ops|
  {
    if ops == [] then s else
      match ops[0]
      case PutOp(ch) => ScreenRun(Put(s, ch), ops[1..])
      case ColorOp(c) => ScreenRun(s.(color := c), ops[1..])
  }

  ghost function TermRun(t: Terminal, ops: seq<Op>): (r: Terminal)
    requires TermOk(t)
    ensures TermOk(r)
    decreases |ops|
  {
    if ops == [] then t else
      match ops[0]
      case PutOp(ch) => TermRun(TermPut(t, ch), ops[1..])
      case ColorOp(c) => TermRun(t.(color := c), ops[1..])
  }

  lemma {:induction false} RunShows(s: Screen, t: Terminal, ops: seq<Op>)
    requires Shows(s, t) && ScreenOk(s)
    ensures Shows(ScreenRun(s, ops), TermRun(t, ops))
    decreases |ops|
  {
    if ops != [] {
      match ops[0]
      case PutOp(ch) =>
        PutShows(s, t, ch);
        RunShows(Put(s, ch), TermPut(t, ch), ops[1..]);
      case ColorOp(c) =>
        RunShows(s.(color := c), t.(color := c), ops[1..]);
    }
  }

  /** For every sequence of characters and colour changes after vga_clear, the screen is the last 25 rows
      of an unbounded terminal given the same sequence, cursor included. */
  lemma ScreenIsWindow(color: u8, ops: seq<Op>)
    ensures Shows(ScreenRun(Cleared(color), ops), TermRun(Terminal(Blank(CELLS, color), ROWS, 0, 0, color), ops))
  {
    var t := Terminal(Blank(CELLS, color), ROWS, 0, 0, color);
    assert Blank(CELLS, color)[COLS * (t.n - ROWS)..] == Blank(CELLS, color);
    RunShows(Cleared(color), t, ops);
  }

  /** Cell by cell: the screen has 25 rows of 80; row r, column c shows the cell of that column in row r of
      the terminal's last 25; and the cursor stands where the terminal's does. */
  lemma WindowCells(color: u8, ops: seq<Op>, r: nat, c: nat)
    requires r < 25 && c < 80
    ensures var t0 := Terminal(Blank(2000, color), 25, 0, 0, color);
            var s, t := ScreenRun(Cleared(color), ops), TermRun(t0, ops);
            && |s.cells| == 2000 && 25 <= t.n && |t.cells| == 80 * t.n
            && s.cells[80 * r + c] == t.cells[80 * (t.n - 25 + r) + c]
            && s.row == t.row - (t.n - 25) && s.row < 25 && s.col == t.col < 80 && s.color == t.color
  {
    ScreenIsWindow(color, ops);
  }

  /** vga_clear leaves 2000 spaces in the current colour and the cursor at the top left. */
  lemma ClearedIsBlank(color: u8, i: nat)
    requires i < 2000
    ensures var s := Cleared(color);
            |s.cells| == 2000 && s.cells[i] == 32 + 256 * color && s.row == 0 && s.col == 0 && s.color == color
  {
  }

  // ---- the code -------------------------------------------------------------------------------------

  class Console {
    const buf: array<u16>
    var row: nat
    var col: nat
    var color: u8

    ghost function State(): Screen
      reads this, buf
    {
      Screen(buf[..], row, col, color)
    }

    ghost predicate Valid()
      reads this, buf
    {
      ScreenOk(State())
    }

    /** vga_init on the 2000 cells of the text buffer, with vga_clear's loop; 7 is light grey on black. */
    constructor Init(memory: array<u16>)
      requires memory.Length == CELLS
      modifies memory
      ensures Valid() && buf == memory && State() == Cleared(7)
    {
      buf := memory;
      row, col, color := 0, 0, 7;
      new;
      Clear();
    }

    method Clear()
      requires buf.Length == CELLS
      modifies this`row, this`col, buf
      ensures Valid() && State() == Cleared(color)
    {
      FillBlank(0, CELLS);
      assert buf[..] == Blank(CELLS, color);
      row, col := 0, 0;
    }

    method FillBlank(from: nat, end: nat)
      requires from <= end <= buf.Length
      modifies buf
      ensures forall i | 0 <= i < buf.Length :: buf[i] == if from <= i < end then Cell(SPACE, color) else old(buf[i])
    {
      var i := from;
      while i < end
        invariant from <= i <= end
        invariant forall j | 0 <= j < buf.Length :: buf[j] == if from <= j < i then Cell(SPACE, color) else old(buf[j])
      {
        buf[i] := Cell(SPACE, color);
        i := i + 1;
      }
    }

    /** The moving loops of vga_scroll: row by row, cell by cell, upwards. */
    method MoveUp()
      requires buf.Length == CELLS
      modifies buf
      ensures forall i | 0 <= i < CELLS :: buf[i] == if i < CELLS - COLS then old(buf[i + COLS]) else old(buf[i])
    {
      var r := 1;
      while r < ROWS
        invariant 1 <= r <= ROWS
        invariant forall i | 0 <= i < CELLS :: buf[i] == if i < COLS * (r - 1) then old(buf[i + COLS]) else old(buf[i])
      {
        var c := 0;
        while c < COLS
          invariant 0 <= c <= COLS
          invariant forall i | 0 <= i < CELLS :: buf[i] == if i < COLS * (r - 1) + c then old(buf[i + COLS]) else old(buf[i])
        {
          buf[(r - 1) * COLS + c] := buf[r * COLS + c];
          c := c + 1;
        }
        r := r + 1;
      }
    }

    method Scroll()
      requires buf.Length == CELLS
      modifies this`row, buf
      ensures buf[..] == Scrolled(old(buf[..]), color) && row == ROWS - 1
    {
      MoveUp();
      FillBlank((ROWS - 1) * COLS, CELLS);
      row := ROWS - 1;
    }

    method SetColor(c: u8)
      modifies this`color
      ensures State() == old(State()).(color := c)
    {
      color := c;
    }

    method PutChar(ch: u8)
      requires Valid()
      modifies this`row, this`col, buf
      ensures Valid() && State() == Put(old(State()), ch)
    {
      if ch == 10 {
        col := 0;
        row := row + 1;
      } else if ch == 13 {
        col := 0;
      } else if ch == 9 {
        col := (col + 8) / 8 * 8;
        if col >= COLS {
          col := 0;
          row := row + 1;
        }
      } else if ch == 8 {
        if col > 0 {
          col := col - 1;
          buf[row * COLS + col] := Cell(SPACE, color);
        }
      } else {
        buf[row * COLS + col] := Cell(ch, color);
        col := col + 1;
        if col >= COLS {
          col := 0;
          row := row + 1;
        }
      }
      if row >= ROWS {
        Scroll();
      }
    }
  }
}
