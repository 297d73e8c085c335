/** The 80x25 text screen as a window onto an unbounded sheet of paper. */
module Screen {
  const WIDTH := 80
  const HEIGHT := 25
  const CELLS := 2000
  /** A space, gray on black. */
  const BLANK := 0x0720

  const BACKSPACE_CHAR := 8
  const TAB_CHAR := 9
  const NEWLINE := 10
  const RETURN := 13

  type Char = c: int | -128 <= c < 128

  /** The 16-bit cell of a character; `char` is signed. */
  function Cell(color: nat, c: Char): int {
    (color * 256 + c) % 0x10000
  }

  function Blanks(n: nat): (s: seq<int>)
    ensures |s| == n && forall i | 0 <= i < n :: s[i] == BLANK
  {
    seq(n, _ => BLANK)
  }

  /** Everything ever written, row after row, and the place of the next character. */
  datatype Paper = Paper(cells: seq<int>, pos: int) {
    predicate Valid() {
      |cells| >= CELLS && |cells| % WIDTH == 0 && Top() <= pos < |cells|
    }

    /** The first cell still on the screen. */
    function Top(): int {
      |cells| - CELLS
    }

    predicate AtOrigin() {
      pos == Top()
    }
  }

  /** Where a character moves the place of writing, on paper without end. */
  function Moved(pos: int, c: Char): int {
    if c == NEWLINE then (pos / WIDTH + 1) * WIDTH
    else if c == RETURN then pos / WIDTH * WIDTH
    else if c == TAB_CHAR then (pos / 8 + 1) * 8
    else if c == BACKSPACE_CHAR then pos - 1
    else pos + 1
  }

  /** What a character prints before the place moves. */
  function Printed(p: Paper, c: Char, color: nat): seq<int>
    requires p.Valid() && !(c == BACKSPACE_CHAR && p.AtOrigin())
  {
    if c == NEWLINE || c == RETURN || c == TAB_CHAR then p.cells
    else if c == BACKSPACE_CHAR then p.cells[p.pos - 1 := BLANK]
    else p.cells[p.pos := Cell(color, c)]
  }

  /** One character on paper: print, move, and add a blank row when the last one is full. */
  function Advance(p: Paper, c: Char, color: nat): (p': Paper)
    requires p.Valid() && !(c == BACKSPACE_CHAR && p.AtOrigin())
    ensures p'.Valid()
  {
    MovedOnPaper(p, c);
    var cells, pos := Printed(p, c, color), Moved(p.pos, c);
    Paper(if pos < |cells| then cells else cells + Blanks(WIDTH), pos)
  }

  /** The stream never backspaces with the cursor at the origin of the screen. */
  predicate Stays(p: Paper, s: seq<Char>, color: nat)
    requires p.Valid()
    decreases |s|
  {
    s == [] || (!(s[0] == BACKSPACE_CHAR && p.AtOrigin()) && Stays(Advance(p, s[0], color), s[1..], color))
  }

  function AdvanceAll(p: Paper, s: seq<Char>, color: nat): (p': Paper)
    requires p.Valid() && Stays(p, s, color)
    ensures p'.Valid()
    decreases |s|
  {
    if s == [] then p else AdvanceAll(Advance(p, s[0], color), s[1..], color)
  }

  /** The rest of a stream begins with its next character. */
  lemma AdvanceNext(p: Paper, s: seq<Char>, n: nat, color: nat)
    requires p.Valid() && n < |s| && Stays(p, s[n..], color)
    ensures !(s[n] == BACKSPACE_CHAR && p.AtOrigin())
    ensures Stays(Advance(p, s[n], color), s[n + 1..], color)
    ensures AdvanceAll(p, s[n..], color) == AdvanceAll(Advance(p, s[n], color), s[n + 1..], color)
  {
    assert s[n..][1..] == s[n + 1..] && s[n..][0] == s[n];
  }

  /** What has scrolled off the screen never changes again. */
  lemma {:induction false} ScrolledOffIsFinal(p: Paper, s: seq<Char>, color: nat)
    requires p.Valid() && Stays(p, s, color)
    ensures var p' := AdvanceAll(p, s, color);
            p.Top() <= p'.Top() && p.cells[..p.Top()] == p'.cells[..p.Top()]
    decreases |s|
  {
    if s != [] {
      ScrolledOffIsFinal(Advance(p, s[0], color), s[1..], color);
    }
  }

  // ----- The cursor registers ---------------------------------------------------------------

  /** The coordinates after the `switch` of `tty_writechar`. */
  function SwitchXY(cursor: nat, c: Char): (int, int) {
    var x, y := cursor % WIDTH, cursor / WIDTH;
    if c == NEWLINE then (0, y + 1)
    else if c == RETURN then (0, y)
    else if c == TAB_CHAR then ((x + 8) / 8 * 8, y)
    else if c == BACKSPACE_CHAR then (x - 1, y)
    else (x + 1, y)
  }

  /** Then wrapping at either end of the line. */
  function WrapXY(x: int, y: int): (int, int) {
    if x >= WIDTH then (0, y + 1) else if x < 0 then (x + WIDTH, y - 1) else (x, y)
  }

  /** The new cursor, in a 16-bit register. */
  function CursorAt(x: int, y: int): nat {
    var w := WrapXY(x, y);
    ((if w.1 >= HEIGHT then HEIGHT - 1 else w.1) * WIDTH + w.0) % 0x10000
  }

  function NextCursor(cursor: nat, c: Char): nat {
    CursorAt(SwitchXY(cursor, c).0, SwitchXY(cursor, c).1)
  }

  /** The cursor stays on the screen exactly when no backspace arrives at the origin. */
  lemma CursorStaysOnScreen(cursor: nat, c: Char)
    requires cursor < CELLS
    ensures NextCursor(cursor, c) < CELLS <==> !(c == BACKSPACE_CHAR && cursor == 0)
  {
  }

  lemma MovedRelative(top: int, cursor: int, c: Char)
    requires top % WIDTH == 0
    ensures Moved(top + cursor, c) == top + Moved(cursor, c)
  {
    var k := top / WIDTH;
    assert (top + cursor) / WIDTH == k + cursor / WIDTH;
    assert (top + cursor) / 8 == 10 * k + cursor / 8;
  }

  /** In coordinates: a place left of the line, right of it or on it is where the wrapping puts it. */
  lemma WrapIsFlat(x: int, y: int)
    requires -1 <= x <= WIDTH && 0 <= WIDTH * y + x <= CELLS
    ensures var w := WrapXY(x, y);
            && WIDTH * w.1 + w.0 == WIDTH * y + x
            && (w.1 >= HEIGHT <==> WIDTH * y + x == CELLS)
            && CursorAt(x, y) == if WIDTH * y + x < CELLS then WIDTH * y + x else CELLS - WIDTH
  {
  }

  lemma SwitchIsMove(cursor: nat, c: Char)
    requires cursor < CELLS && !(c == BACKSPACE_CHAR && cursor == 0)
    ensures var s := SwitchXY(cursor, c);
            -1 <= s.0 <= WIDTH && WIDTH * s.1 + s.0 == Moved(cursor, c) && 0 <= Moved(cursor, c) <= CELLS
  {
    var x, y := cursor % WIDTH, cursor / WIDTH;
    if c == TAB_CHAR {
      assert cursor / 8 == 10 * y + x / 8;
    }
  }

  lemma NextCursorMoves(cursor: nat, c: Char)
    requires cursor < CELLS && !(c == BACKSPACE_CHAR && cursor == 0)
    ensures var moved := Moved(cursor, c);
            var s := SwitchXY(cursor, c);
            && 0 <= moved <= CELLS
            && NextCursor(cursor, c) == (if moved < CELLS then moved else moved - WIDTH)
            && (WrapXY(s.0, s.1).1 >= HEIGHT <==> moved == CELLS)
  {
    SwitchIsMove(cursor, c);
    WrapIsFlat(SwitchXY(cursor, c).0, SwitchXY(cursor, c).1);
  }

  /** The place moves on the paper as it would on the screen alone. */
  lemma MovedOnPaper(p: Paper, c: Char)
    requires p.Valid() && !(c == BACKSPACE_CHAR && p.AtOrigin())
    ensures Moved(p.pos, c) == p.Top() + Moved(p.pos - p.Top(), c)
    ensures 0 <= Moved(p.pos - p.Top(), c) <= CELLS
  {
    var top, cursor := p.Top(), p.pos - p.Top();
    WholeRows(|p.cells|);
    MovedRelative(top, cursor, c);
    MovedRange(cursor, c);
  }

  lemma WholeRows(n: int)
    requires n % WIDTH == 0
    ensures (n - CELLS) % WIDTH == 0
  {
  }

  lemma MovedRange(cursor: nat, c: Char)
    requires cursor < CELLS && !(c == BACKSPACE_CHAR && cursor == 0)
    ensures 0 <= Moved(cursor, c) <= CELLS
  {
    SwitchIsMove(cursor, c);
  }

  /** The screen's coordinates and the paper's place move together. */
  lemma CursorFollowsPaper(p: Paper, c: Char, color: nat)
    requires p.Valid() && !(c == BACKSPACE_CHAR && p.AtOrigin())
    ensures var p' := Advance(p, c, color);
            NextCursor(p.pos - p.Top(), c) == p'.pos - p'.Top()
  {
    PlaceAfter(p, c, color);
    NextCursorMoves(p.pos - p.Top(), c);
  }

  lemma PlaceAfter(p: Paper, c: Char, color: nat)
    requires p.Valid() && !(c == BACKSPACE_CHAR && p.AtOrigin())
    ensures var p', moved := Advance(p, c, color), Moved(p.pos - p.Top(), c);
            p'.pos - p'.Top() == if moved < CELLS then moved else moved - WIDTH
  {
    MovedOnPaper(p, c);
  }

  /** All that one character does to the screen, in terms of the paper. */
  lemma StepFollowsPaper(p: Paper, c: Char, color: nat)
    requires p.Valid() && !(c == BACKSPACE_CHAR && p.AtOrigin())
    ensures var p', shown, cursor := Advance(p, c, color), Printed(p, c, color)[p.Top()..], p.pos - p.Top();
            var s := SwitchXY(cursor, c);
            var scrolls := WrapXY(s.0, s.1).1 >= HEIGHT;
            && NextCursor(cursor, c) == p'.pos - p'.Top()
            && p'.cells[p'.Top()..] == if scrolls then shown[WIDTH..] + Blanks(WIDTH) else shown
  {
    CursorFollowsPaper(p, c, color);
    NextCursorMoves(p.pos - p.Top(), c);
    WindowAfter(p, c, color);
  }

  /** The window after a character: what was printed, moved up one row when the place left the paper. */
  lemma WindowAfter(p: Paper, c: Char, color: nat)
    requires p.Valid() && !(c == BACKSPACE_CHAR && p.AtOrigin())
    ensures var p', shown := Advance(p, c, color), Printed(p, c, color)[p.Top()..];
            && (Moved(p.pos - p.Top(), c) < CELLS ==> p'.cells[p'.Top()..] == shown)
            && (Moved(p.pos - p.Top(), c) == CELLS ==> p'.cells[p'.Top()..] == shown[WIDTH..] + Blanks(WIDTH))
  {
    var p', top, shown := Advance(p, c, color), p.Top(), Printed(p, c, color)[p.Top()..];
    MovedOnPaper(p, c);
    if Moved(p.pos - top, c) == CELLS {
      WindowScrolls(Printed(p, c, color), Blanks(WIDTH));
    }
  }

  lemma WindowScrolls(cells: seq<int>, row: seq<int>)
    requires |cells| >= CELLS && |row| == WIDTH
    ensures (cells + row)[|cells| + WIDTH - CELLS..] == cells[|cells| - CELLS..][WIDTH..] + row
  {
  }

  // ----- The same in plain numbers ----------------------------------------------------------------

  /** A cell holds the character in its low byte and the color in its high byte. */
  lemma CellBytes(color: nat, c: Char)
    ensures 0 <= Cell(color, c) < 0x10000 && Cell(color, c) % 256 == (c as int) % 256
    ensures color < 256 && c >= 0 ==> Cell(color, c) == 256 * color + c && Cell(color, c) / 256 == color
    ensures color < 256 && c < 0 ==> Cell(color, c) / 256 == (color - 1) % 256
  {
  }

  /**
   One character on 80 columns and 25 rows: newline is 10, return 13, tab 9, backspace 8. The old
   cells and cursor are v and cur, the new ones v' and cur'.
   */
  predicate PlainStep(v: seq<int>, cur: nat, color: nat, c: Char, v': seq<int>, cur': nat)
    requires |v| == 2000 && cur < 2000 && !(c == 8 && cur == 0)
  {
    var w := if c == 8 then v[cur - 1 := 0x0720]
             else if c == 9 || c == 10 || c == 13 then v
             else v[cur := (256 * color + c) % 0x10000];
    var m := if c == 10 then 80 * (cur / 80) + 80
             else if c == 13 then 80 * (cur / 80)
             else if c == 9 then 8 * (cur / 8) + 8
             else if c == 8 then cur - 1
             else cur + 1;
    && cur' == (if m < 2000 then m else m - 80)
    && v' == if m < 2000 then w else w[80..] + seq(80, _ => 0x0720)
  }

  /** Writing on paper is that step on the screen. */
  lemma PaperIsPlain(p: Paper, c: Char, color: nat, v: seq<int>, cur: nat, v': seq<int>, cur': nat)
    requires p.Valid() && !(c == BACKSPACE_CHAR && p.AtOrigin())
    requires v == p.cells[p.Top()..] && cur == p.pos - p.Top()
    requires var p' := Advance(p, c, color); v' == p'.cells[p'.Top()..] && cur' == p'.pos - p'.Top()
    ensures PlainStep(v, cur, color, c, v', cur')
  {
    MovedOnPaper(p, c);
    PlaceAfter(p, c, color);
    WindowAfter(p, c, color);
    PrintedInWindow(p, c, color);
    assert Blanks(80) == seq(80, _ => 0x0720);
  }

  lemma PrintedInWindow(p: Paper, c: Char, color: nat)
    requires p.Valid() && !(c == BACKSPACE_CHAR && p.AtOrigin())
    ensures var v, cur := p.cells[p.Top()..], p.pos - p.Top();
            Printed(p, c, color)[p.Top()..] ==
            if c == 8 then v[cur - 1 := 0x0720]
            else if c == 9 || c == 10 || c == 13 then v
            else v[cur := (256 * color + c) % 0x10000]
  {
  }
}
