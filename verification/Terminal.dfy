/** kernel/vga.c: text output into a viewport of the screen that scrolls, and the unbounded
    log of lines it is a window on. */
module Terminal {
  import opened Bytes

  const VGA_WIDTH := 80
  const VGA_HEIGHT := 25

  type Cell = x: int | 0 <= x < 0x1_0000
  type Line = s: seq<Cell> | |s| == 80 witness seq(80, _ => 0)

  /** `vga_entry` and `vga_entry_color` */
  function Glyph(c: byte, color: byte): Cell {
    c as int + 256 * (color as int)
  }

  /** Bitwise or. */
  function Or(a: nat, b: nat): nat {
    if a == 0 then b
    else if b == 0 then a
    else 2 * Or(a / 2, b / 2) + (if a % 2 == 1 || b % 2 == 1 then 1 else 0)
  }

  /** The foreground or the background shifted by four, in eight bits; the low four bits of the
      shifted background are clear. */
  function EntryColor(fg: byte, bg: byte): byte {
    (fg % 16 + 16 * Or(fg / 16, bg % 16)) % 256
  }

  /** The attribute of two of the 16 colours: the foreground in the low four bits, the background
      in the high ones. */
  lemma ColorIs(fg: byte, bg: byte)
    requires fg < 16 && bg < 16
    ensures EntryColor(fg, bg) == fg + 16 * bg
  {
    assert fg / 16 == 0 && fg % 16 == fg && bg % 16 == bg;
  }

  function Fill(n: nat, g: Cell): (r: seq<Cell>)
    ensures |r| == n && forall k :: 0 <= k < n ==> r[k] == g
  {
    seq(n, _ => g)
  }

  function Blank(color: byte): Line {
    Fill(80, Glyph(SPACE, color))
  }

  datatype Op = SetColor(fg: byte, bg: byte) | Put(c: byte) | Backspace

  predicate Printable(c: byte) {
    c != NEWLINE && c != RETURN
  }

  // ---- the log: a terminal that never scrolls -------------------------------------------------

  /** All lines ever started, and the cursor in them. Only the last `height` lines can be seen. */
  datatype Log = Log(lines: seq<Line>, row: nat, col: nat, color: byte)

  predicate LogOk(l: Log, height: nat) {
    1 <= height <= |l.lines| && |l.lines| - height <= l.row < |l.lines| && l.col < 80
  }

  function LogNewline(l: Log): Log {
    l.(row := l.row + 1, col := 0,
       lines := if l.row + 1 < |l.lines| then l.lines else l.lines + [Blank(l.color)])
  }

  function LogWrite(l: Log, row: nat, col: nat, c: byte): Log
    requires row < |l.lines| && col < 80
  {
    l.(lines := l.lines[row := l.lines[row][col := Glyph(c, l.color)]], row := row, col := col)
  }

  function LogStep(l: Log, op: Op, height: nat): (m: Log)
    requires LogOk(l, height)
    ensures LogOk(m, height)
  {
    match op
    case SetColor(fg, bg) => l.(color := EntryColor(fg, bg))
    case Put(c) =>
      if c == NEWLINE then LogNewline(l)
      else if c == RETURN then l.(col := 0)
      else
        var w := LogWrite(l, l.row, l.col, c);
        if l.col + 1 < 80 then w.(col := l.col + 1) else LogNewline(w)
    case Backspace =>
      if l.row == |l.lines| - height && l.col == 0 then l
      else if l.col == 0 then LogWrite(l, l.row - 1, 79, SPACE)
      else LogWrite(l, l.row, l.col - 1, SPACE)
  }

  // ---- the screen -----------------------------------------------------------------------------

  datatype Screen = Screen(cells: seq<Cell>, row: int, col: int, color: byte, top: int, bot: int)

  /** The viewport is usable; the cursor may be anywhere. */
  predicate Framed(s: Screen) {
    |s.cells| == VGA_WIDTH * VGA_HEIGHT && 0 <= s.top <= s.bot < VGA_HEIGHT
  }

  predicate ScreenOk(s: Screen) {
    Framed(s) && s.top <= s.row <= s.bot && 0 <= s.col < 80
  }

  function Row(cells: seq<Cell>, y: int): Line
    requires 0 <= y && 80 * y + 80 <= |cells|
  {
    cells[80 * y..80 * y + 80]
  }

  function ScrolledCell(cells: seq<Cell>, top: int, bot: int, color: byte, k: int): Cell
    requires 0 <= top <= bot && 80 * bot + 80 <= |cells| && 0 <= k < |cells|
  {
    if 80 * bot <= k < 80 * bot + 80 then Glyph(SPACE, color)
    else if 80 * top <= k < 80 * bot then cells[k + 80]
    else cells[k]
  }

  /** `vga_scroll`: lines move up by one inside the viewport, a blank one comes in. */
  function ScrollCells(cells: seq<Cell>, top: int, bot: int, color: byte): (r: seq<Cell>)
    requires 0 <= top <= bot && 80 * bot + 80 <= |cells|
    ensures |r| == |cells|
  {
    seq(|cells|, k requires 0 <= k < |cells| => ScrolledCell(cells, top, bot, color, k))
  }

  function ClearedCell(cells: seq<Cell>, top: int, bot: int, color: byte, k: int): Cell
    requires 0 <= k < |cells|
  {
    if 80 * top <= k < 80 * bot + 80 then Glyph(SPACE, color) else cells[k]
  }

  /** `vga_clear` */
  function ClearCells(cells: seq<Cell>, top: int, bot: int, color: byte): (r: seq<Cell>)
    requires 0 <= top <= bot && 80 * bot + 80 <= |cells|
    ensures |r| == |cells|
  {
    seq(|cells|, k requires 0 <= k < |cells| => ClearedCell(cells, top, bot, color, k))
  }

  function ClearScreen(s: Screen): (u: Screen)
    requires Framed(s)
    ensures ScreenOk(u)
  {
    s.(cells := ClearCells(s.cells, s.top, s.bot, s.color), row := s.top, col := 0)
  }

  function ScreenNewline(s: Screen): Screen
    requires ScreenOk(s)
  {
    if s.row + 1 > s.bot then s.(cells := ScrollCells(s.cells, s.top, s.bot, s.color), row := s.bot, col := 0)
    else s.(row := s.row + 1, col := 0)
  }

  function ScreenWrite(s: Screen, row: int, col: int, c: byte): Screen
    requires |s.cells| == VGA_WIDTH * VGA_HEIGHT && 0 <= row < VGA_HEIGHT && 0 <= col < 80
  {
    s.(cells := s.cells[80 * row + col := Glyph(c, s.color)], row := row, col := col)
  }

  /** `vga_set_color`, `vga_putchar` and `vga_backspace`. */
  function ScreenStep(s: Screen, op: Op): (u: Screen)
    requires ScreenOk(s)
    ensures ScreenOk(u) && Height(u) == Height(s)
  {
    match op
    case SetColor(fg, bg) => s.(color := EntryColor(fg, bg))
    case Put(c) =>
      if c == NEWLINE then ScreenNewline(s)
      else if c == RETURN then s.(col := 0)
      else
        var w := ScreenWrite(s, s.row, s.col, c);
        if s.col + 1 < 80 then w.(col := s.col + 1) else ScreenNewline(w)
    case Backspace =>
      if s.row == s.top && s.col == 0 then s
      else if s.col == 0 then ScreenWrite(s, s.row - 1, 79, SPACE)
      else ScreenWrite(s, s.row, s.col - 1, SPACE)
  }

  // ---- the effect of every operation, cell by cell ------------------------------------------------

  /** The viewport lines moved up by one; the last one is blank. */
  predicate MovedUp(was: seq<Cell>, now: seq<Cell>, top: int, bot: int, color: byte) {
    && |now| == |was| && forall k {:trigger now[k]} :: 0 <= k < |was| ==>
      now[k] == if 80 * bot <= k < 80 * bot + 80 then 32 + 256 * color as int
                else if 80 * top <= k < 80 * bot && k + 80 < |was| then was[k + 80] else was[k]
  }

  /** A newline: the next row, or a scroll on the last one. */
  lemma NewlineExactly(s: Screen)
    requires ScreenOk(s)
    ensures var u := ScreenStep(s, Put(10));
      && u.col == 0 && u.color == s.color && u.top == s.top && u.bot == s.bot
      && (s.row < s.bot ==> u.row == s.row + 1 && u.cells == s.cells)
      && (s.row == s.bot ==> u.row == s.row && MovedUp(s.cells, u.cells, s.top, s.bot, s.color))
  {
  }

  lemma ReturnExactly(s: Screen)
    requires ScreenOk(s)
    ensures ScreenStep(s, Put(13)) == s.(col := 0)
  {
  }

  /** A character: its byte with the attribute in the cell at the cursor, which goes one column
      on, or behind the last column to the next row as after a newline. */
  lemma PutExactly(s: Screen, c: byte)
    requires ScreenOk(s) && c != 10 && c != 13
    ensures var w := s.(cells := s.cells[80 * s.row + s.col := c as int + 256 * (s.color as int)]);
      ScreenStep(s, Put(c)) == if s.col < 79 then w.(col := s.col + 1) else ScreenStep(w, Put(10))
  {
  }

  /** A character printed in two of the 16 colours: where it is to be seen, and how. */
  lemma ColouredCell(s: Screen, fg: byte, bg: byte, c: byte)
    requires ScreenOk(s) && fg < 16 && bg < 16 && c != 10 && c != 13
    requires s.top < s.bot || s.col < 79
    ensures var u := ScreenStep(ScreenStep(s, SetColor(fg, bg)), Put(c));
      var row := if s.col == 79 && s.row == s.bot then s.row - 1 else s.row;
      && |u.cells| == 2000
      && var cell := u.cells[80 * row + s.col];
      cell % 256 == c as int && cell / 256 % 16 == fg as int && cell / 4096 == bg as int
  {
    ColorIs(fg, bg);
    var v := ScreenStep(s, SetColor(fg, bg));
    var w := v.(cells := v.cells[80 * v.row + v.col := c as int + 256 * (v.color as int)]);
    PutExactly(v, c);
    NewlineExactly(w);
    CellParts(fg, bg, c);
  }

  lemma CellParts(fg: byte, bg: byte, c: byte)
    requires fg < 16 && bg < 16
    ensures var cell := c as int + 256 * (fg + 16 * bg);
      cell % 256 == c as int && cell / 256 % 16 == fg as int && cell / 4096 == bg as int
  {
  }

  /** A backspace: the cell before the cursor becomes a space in the current colour and the
      cursor goes there; in the first cell of the viewport nothing happens. */
  lemma BackspaceExactly(s: Screen)
    requires ScreenOk(s)
    ensures var u := ScreenStep(s, Backspace);
      var k := 80 * s.row + s.col - 1;
      if s.row == s.top && s.col == 0 then u == s
      else
        && 80 * u.row + u.col == k && 0 <= u.col < 80 && u.color == s.color && u.top == s.top && u.bot == s.bot
        && 0 <= k < 2000 && u.cells == s.cells[k := 32 + 256 * (s.color as int)]
  {
  }

  /** A clear: spaces in the current colour in the viewport, the cursor in its first cell. */
  lemma ClearExactly(s: Screen)
    requires Framed(s)
    ensures var u := ClearScreen(s);
      && u.row == s.top && u.col == 0 && u.color == s.color && u.top == s.top && u.bot == s.bot
      && |u.cells| == 2000
      && forall k :: 0 <= k < 2000 ==>
        u.cells[k] == if 80 * s.top <= k < 80 * s.bot + 80 then 32 + 256 * (s.color as int) else s.cells[k]
  {
  }

  // ---- the window -------------------------------------------------------------------------------

  function Height(s: Screen): int {
    s.bot - s.top + 1
  }

  /** Line `y` of the viewport is line `y` of the window. */
  predicate ShowsLine(s: Screen, l: Log, y: int)
    requires ScreenOk(s) && |l.lines| >= Height(s) && 0 <= y < Height(s)
  {
    Row(s.cells, s.top + y) == l.lines[|l.lines| - Height(s) + y]
  }

  /** The viewport is the last `Height(s)` lines of the log, with the same cursor and colour. */
  predicate Shows(s: Screen, l: Log) {
    && ScreenOk(s) && LogOk(l, Height(s))
    && s.row - s.top == l.row - (|l.lines| - Height(s)) && s.col == l.col && s.color == l.color
    && forall y :: 0 <= y < Height(s) ==> ShowsLine(s, l, y)
  }

  /** Cells outside the viewport. */
  predicate Untouched(s: Screen, u: Screen) {
    && |s.cells| == |u.cells| && s.top == u.top && s.bot == u.bot
    && forall k :: 0 <= k < |s.cells| && !(80 * s.top <= k < 80 * s.bot + 80) ==> s.cells[k] == u.cells[k]
  }

  lemma RowOfUpdate(cells: seq<Cell>, row: int, col: int, g: Cell, y: int)
    requires 0 <= row && 80 * row + 80 <= |cells| && 0 <= col < 80 && 0 <= y && 80 * y + 80 <= |cells|
    ensures Row(cells[80 * row + col := g], y) == if y == row then Row(cells, y)[col := g] else Row(cells, y)
  {
  }

  lemma RowOfScroll(cells: seq<Cell>, top: int, bot: int, color: byte, y: int)
    requires 0 <= top <= y <= bot && 80 * bot + 80 <= |cells|
    ensures Row(ScrollCells(cells, top, bot, color), y) == if y == bot then Blank(color) else Row(cells, y + 1)
  {
  }

  lemma WriteShows(s: Screen, l: Log, row: int, col: int, c: byte)
    requires Shows(s, l) && s.top <= row <= s.bot && 0 <= col < 80
    ensures Shows(ScreenWrite(s, row, col, c), LogWrite(l, |l.lines| - Height(s) + row - s.top, col, c))
    ensures Untouched(s, ScreenWrite(s, row, col, c))
  {
    var u := ScreenWrite(s, row, col, c);
    var m := LogWrite(l, |l.lines| - Height(s) + row - s.top, col, c);
    forall y | 0 <= y < Height(u) ensures ShowsLine(u, m, y) {
      assert ShowsLine(s, l, y);
      RowOfUpdate(s.cells, row, col, Glyph(c, s.color), s.top + y);
    }
  }

  lemma ScrollShowsLine(s: Screen, l: Log, y: int)
    requires Shows(s, l) && s.row == s.bot && 0 <= y < Height(s)
    ensures LogNewline(l).lines == l.lines + [Blank(l.color)]
    ensures ShowsLine(ScreenNewline(s), LogNewline(l), y)
  {
    RowOfScroll(s.cells, s.top, s.bot, s.color, s.top + y);
    if y + 1 < Height(s) { assert ShowsLine(s, l, y + 1); }
  }

  lemma ScrollShows(s: Screen, l: Log)
    requires Shows(s, l) && s.row == s.bot
    ensures Shows(ScreenNewline(s), LogNewline(l)) && Untouched(s, ScreenNewline(s))
  {
    forall y | 0 <= y < Height(s) ensures ShowsLine(ScreenNewline(s), LogNewline(l), y) {
      ScrollShowsLine(s, l, y);
    }
  }

  lemma NewlineShows(s: Screen, l: Log)
    requires Shows(s, l)
    ensures Shows(ScreenNewline(s), LogNewline(l)) && Untouched(s, ScreenNewline(s))
  {
    if s.row == s.bot {
      ScrollShows(s, l);
    } else {
      forall y | 0 <= y < Height(s) ensures ShowsLine(ScreenNewline(s), LogNewline(l), y) { assert ShowsLine(s, l, y); }
    }
  }

  lemma CursorShows(s: Screen, l: Log, col: nat, color: byte)
    requires Shows(s, l) && col < 80
    ensures Shows(s.(col := col, color := color), l.(col := col, color := color))
  {
    var u, m := s.(col := col, color := color), l.(col := col, color := color);
    forall y | 0 <= y < Height(s) ensures ShowsLine(u, m, y) { assert ShowsLine(s, l, y); }
  }

  lemma PutShows(s: Screen, l: Log, c: byte)
    requires Shows(s, l) && Printable(c)
    ensures Shows(ScreenStep(s, Put(c)), LogStep(l, Put(c), Height(s))) && Untouched(s, ScreenStep(s, Put(c)))
  {
    WriteShows(s, l, s.row, s.col, c);
    var w, v := ScreenWrite(s, s.row, s.col, c), LogWrite(l, l.row, l.col, c);
    if s.col + 1 < 80 {
      CursorShows(w, v, s.col + 1, w.color);
    } else {
      NewlineShows(w, v);
    }
  }

  /** One operation keeps the viewport a window on the log and leaves the rest alone. */
  lemma StepShows(s: Screen, l: Log, op: Op)
    requires Shows(s, l)
    ensures Shows(ScreenStep(s, op), LogStep(l, op, Height(s))) && Untouched(s, ScreenStep(s, op))
  {
    match op
    case SetColor(fg, bg) => CursorShows(s, l, s.col, EntryColor(fg, bg));
    case Put(c) =>
      if c == NEWLINE {
        NewlineShows(s, l);
      } else if c == RETURN {
        CursorShows(s, l, 0, s.color);
      } else {
        PutShows(s, l, c);
      }
    case Backspace =>
      if s.row == s.top && s.col == 0 {
      } else if s.col == 0 {
        WriteShows(s, l, s.row - 1, 79, SPACE);
      } else {
        WriteShows(s, l, s.row, s.col - 1, SPACE);
      }
  }

  // ---- runs -------------------------------------------------------------------------------------

  ghost function RunScreen(s: Screen, ops: seq<Op>): Screen
    requires ScreenOk(s)
    decreases |ops|
  {
    if ops == [] then s else RunScreen(ScreenStep(s, ops[0]), ops[1..])
  }

  ghost function RunLog(l: Log, ops: seq<Op>, height: nat): Log
    requires LogOk(l, height)
    decreases |ops|
  {
    if ops == [] then l else RunLog(LogStep(l, ops[0], height), ops[1..], height)
  }

  lemma {:induction false} RunShows(s: Screen, l: Log, ops: seq<Op>)
    requires Shows(s, l)
    ensures Shows(RunScreen(s, ops), RunLog(l, ops, Height(s))) && Untouched(s, RunScreen(s, ops))
    decreases |ops|
  {
    if ops != [] {
      StepShows(s, l, ops[0]);
      RunShows(ScreenStep(s, ops[0]), LogStep(l, ops[0], Height(s)), ops[1..]);
    }
  }

  /** The log right after a clear. */
  function FreshLog(height: nat, color: byte): Log {
    Log(seq(height, _ => Blank(color)), 0, 0, color)
  }

  lemma RowOfClear(cells: seq<Cell>, top: int, bot: int, color: byte, y: int)
    requires 0 <= top <= y <= bot && 80 * bot + 80 <= |cells|
    ensures Row(ClearCells(cells, top, bot, color), y) == Blank(color)
  {
  }

  lemma ClearShows(s: Screen)
    requires Framed(s)
    ensures Shows(ClearScreen(s), FreshLog(Height(s), s.color)) && Untouched(s, ClearScreen(s))
  {
    var u, l := ClearScreen(s), FreshLog(Height(s), s.color);
    RowOfClear(s.cells, s.top, s.bot, s.color, s.top);
    forall y | 0 <= y < Height(u) ensures ShowsLine(u, l, y) {
      RowOfClear(s.cells, s.top, s.bot, s.color, s.top + y);
    }
  }

  /** After a clear, whatever is printed, the viewport rows are the last lines of the log, with
      the log's cursor, and no cell outside the viewport has changed. */
  lemma ViewportIsWindow(s: Screen, ops: seq<Op>)
    requires Framed(s)
    ensures var u, l := RunScreen(ClearScreen(s), ops), RunLog(FreshLog(Height(s), s.color), ops, Height(s));
      Shows(u, l) && Untouched(s, u)
  {
    ClearShows(s);
    RunShows(ClearScreen(s), FreshLog(Height(s), s.color), ops);
  }

  /** A printable character followed by a backspace restores the logical cursor, across wrapping
      and scrolling too, except in a one-line viewport at the last column; then the line is as it
      was but for a blank at the cursor. */
  lemma PutThenBackspace(l: Log, c: byte, height: nat)
    requires LogOk(l, height) && Printable(c)
    ensures var m := LogStep(l, Put(c), height);
      && LogOk(m, height)
      && var n := LogStep(m, Backspace, height);
      && ((n.row == l.row && n.col == l.col) <==> (height >= 2 || l.col < 79))
      && (height >= 2 || l.col < 79 ==> n.lines[..|l.lines|] == LogWrite(l, l.row, l.col, SPACE).lines)
  {
    var w := LogWrite(l, l.row, l.col, c);
    var m := LogStep(l, Put(c), height);
    assert w.lines[l.row][l.col := Glyph(SPACE, l.color)] == l.lines[l.row][l.col := Glyph(SPACE, l.color)];
    if height >= 2 || l.col < 79 {
      var n := LogStep(m, Backspace, height);
      assert n.lines[l.row] == l.lines[l.row][l.col := Glyph(SPACE, l.color)];
    }
  }

  // ---- vga_set_viewport ---------------------------------------------------------------------------

  function Viewport(s: Screen, top: int, bottom: int): Screen {
    var t0 := if top < 0 then 0 else top;
    var b := if bottom >= VGA_HEIGHT then VGA_HEIGHT - 1 else bottom;
    var t := if t0 > b then b else t0;
    var r := if s.row < t then t else s.row;
    s.(top := t, bot := b, row := if r > b then b else r)
  }

  /** `vga_set_viewport` sets the rows asked for, cut to the screen and the top to the bottom, and
      moves only the cursor's row, to the nearest one inside; the viewport is usable exactly when
      the bottom row asked for is not negative. */
  lemma ViewportExactly(s: Screen, top: int, bottom: int)
    requires |s.cells| == VGA_WIDTH * VGA_HEIGHT && 0 <= s.col < 80
    ensures ScreenOk(Viewport(s, top, bottom)) <==> bottom >= 0
    ensures var u := Viewport(s, top, bottom);
      && u.cells == s.cells && u.col == s.col && u.color == s.color
      && (0 <= top <= bottom <= 24 ==> u.top == top && u.bot == bottom)
      && (bottom > 24 ==> u.bot == 24) && (top < 0 <= bottom ==> u.top == 0) && (top > u.bot ==> u.top == u.bot)
      && (0 <= top <= u.bot ==> u.top == top) && (bottom <= 24 ==> u.bot == bottom)
      && (u.top <= s.row <= u.bot ==> u.row == s.row)
      && (s.row > u.bot ==> u.row == u.bot) && (s.row < u.top <= u.bot ==> u.row == u.top)
  {
  }

  // ---- the driver ---------------------------------------------------------------------------------

  class VgaTerminal {
    const cells: array<Cell>
    var row: int
    var col: int
    var color: byte
    var top: int
    var bot: int

    ghost function State(): Screen
      reads this, cells
    {
      Screen(cells[..], row, col, color, top, bot)
    }

    ghost predicate Valid()
      reads this, cells
    {
      ScreenOk(State())
    }

    constructor (cells: array<Cell>)
      requires cells.Length == VGA_WIDTH * VGA_HEIGHT
      ensures this.cells == cells && Valid()
    {
      this.cells := cells;
      row, col, color, top, bot := 0, 0, 7, 0, 24;
    }

    method SetColor(fg: byte, bg: byte)
      requires Valid()
      modifies this`color
      ensures State() == ScreenStep(old(State()), Op.SetColor(fg, bg)) && Valid()
    {
      color := EntryColor(fg, bg);
    }

    method Scroll()
      requires 0 <= top <= bot && 80 * bot + 80 <= cells.Length
      modifies cells
      ensures cells[..] == ScrollCells(old(cells[..]), top, bot, color)
    {
      var y := top + 1;
      while y <= bot
        invariant top + 1 <= y <= bot + 1
        invariant forall k {:trigger cells[k]} :: 0 <= k < cells.Length ==>
          cells[k] == if 80 * top <= k < 80 * y - 80 then old(cells[k + 80]) else old(cells[k])
      {
        MoveRowUp(y);
        y := y + 1;
      }
      BlankRow(bot);
    }

    /** A row of spaces in the current colour. */
    method BlankRow(y: int)
      requires 0 <= y && 80 * y + 80 <= cells.Length
      modifies cells
      ensures forall k {:trigger cells[k]} :: 0 <= k < cells.Length ==>
        cells[k] == if 80 * y <= k < 80 * y + 80 then Glyph(SPACE, color) else old(cells[k])
    {
      for x := 0 to 80
        invariant forall k {:trigger cells[k]} :: 0 <= k < cells.Length ==>
          cells[k] == if 80 * y <= k < 80 * y + x then Glyph(SPACE, color) else old(cells[k])
      {
        cells[80 * y + x] := Glyph(SPACE, color);
      }
    }

    /** The inner loop of `vga_scroll`: line `y` is copied over the one above it. */
    method MoveRowUp(y: int)
      requires 1 <= y && 80 * y + 80 <= cells.Length
      modifies cells
      ensures forall k {:trigger cells[k]} :: 0 <= k < cells.Length ==>
        cells[k] == if 80 * y - 80 <= k < 80 * y then old(cells[k + 80]) else old(cells[k])
    {
      for x := 0 to 80
        invariant forall k {:trigger cells[k]} :: 0 <= k < cells.Length ==>
          cells[k] == if 80 * y - 80 <= k < 80 * y - 80 + x then old(cells[k + 80]) else old(cells[k])
      {
        cells[80 * (y - 1) + x] := cells[80 * y + x];
      }
    }

    method Clear()
      requires Framed(State())
      modifies this`row, this`col, cells
      ensures State() == ClearScreen(old(State())) && Valid()
    {
      BlankRows();
      row := top;
      col := 0;
    }

    /** The loops of `vga_clear`. */
    method BlankRows()
      requires 0 <= top <= bot && 80 * bot + 80 <= cells.Length
      modifies cells
      ensures cells[..] == ClearCells(old(cells[..]), top, bot, color)
    {
      var y := top;
      while y <= bot
        invariant top <= y <= bot + 1
        invariant forall k {:trigger cells[k]} :: 0 <= k < cells.Length ==>
          cells[k] == if 80 * top <= k < 80 * y then Glyph(SPACE, color) else old(cells[k])
      {
        BlankRow(y);
        y := y + 1;
      }
    }

    method Newline()
      requires Valid()
      modifies this`row, this`col, cells
      ensures State() == ScreenNewline(old(State())) && Valid()
    {
      RowOfScroll(cells[..], top, bot, color, bot);
      col := 0;
      row := row + 1;
      if row > bot {
        row := bot;
        Scroll();
      }
    }

    method PutChar(c: byte)
      requires Valid()
      modifies this`row, this`col, cells
      ensures State() == ScreenStep(old(State()), Put(c)) && Valid()
    {
      if c == NEWLINE {
        Newline();
        return;
      }
      if c == RETURN {
        col := 0;
        return;
      }
      cells[80 * row + col] := Glyph(c, color);
      if col + 1 >= 80 {
        Newline();
      } else {
        col := col + 1;
      }
    }

    method BackspaceKey()
      requires Valid()
      modifies this`row, this`col, cells
      ensures State() == ScreenStep(old(State()), Backspace) && Valid()
    {
      if row == top && col == 0 { return; }
      if col == 0 {
        row := row - 1;
        col := 79;
      } else {
        col := col - 1;
      }
      cells[80 * row + col] := Glyph(SPACE, color);
    }

    method SetViewport(top: int, bottom: int)
      requires cells.Length == VGA_WIDTH * VGA_HEIGHT && 0 <= col < 80
      modifies this`row, this`top, this`bot
      ensures State() == Viewport(old(State()), top, bottom)
      ensures Valid() <==> bottom >= 0
    {
      ViewportExactly(State(), top, bottom);
      var t, b := top, bottom;
      if t < 0 { t := 0; }
      if b >= VGA_HEIGHT { b := VGA_HEIGHT - 1; }
      if t > b { t := b; }
      this.top := t;
      bot := b;
      if row < this.top { row := this.top; }
      if row > bot { row := bot; }
    }
  }
}
