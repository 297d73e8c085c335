/** The terminal: writing to the screen, and the keyboard's line editor with its reader. */
module Terminal {
  import opened Screen
  import opened Keyboard
  import opened LineDiscipline

  /** The cells a typed line occupies. */
  function Echo(line: seq<Char>, color: nat): seq<int> {
    seq(|line|, i requires 0 <= i < |line| => Cell(color, line[i]))
  }

  /** The low byte of each cell of an echo is its character, so a line can be read off the screen. */
  lemma EchoIsLine(a: seq<Char>, b: seq<Char>, color: nat)
    ensures forall i | 0 <= i < |a| :: Echo(a, color)[i] % 256 == (a[i] as int) % 256
    ensures Echo(a, color) == Echo(b, color) <==> a == b
  {
    forall i | 0 <= i < |a| ensures Echo(a, color)[i] % 256 == (a[i] as int) % 256 { CellBytes(color, a[i]); }
    if Echo(a, color) == Echo(b, color) {
      assert |a| == |Echo(a, color)| == |b|;
      forall i | 0 <= i < |a| ensures a[i] == b[i] {
        assert Echo(a, color)[i] == Echo(b, color)[i];
        CellBytes(color, a[i]);
        CellBytes(color, b[i]);
      }
    }
  }

  /** A typed character extends the echo, and a line that fits the buffer never scrolls off its own start. */
  lemma EchoTyped(p: Paper, start: int, line: seq<Char>, c: Char, color: nat)
    requires p.Valid() && c !in [BACKSPACE_CHAR, TAB_CHAR, NEWLINE, RETURN] && |line| < CAPACITY
    requires p.Top() <= start && p.pos == start + |line| && p.cells[start..p.pos] == Echo(line, color)
    ensures var p' := Advance(p, c, color);
            && p'.Top() <= start && p'.pos == start + |line| + 1
            && p'.cells[start..p'.pos] == Echo(line + [c], color)
            && Kept(p, p', start)
  {
    var p' := Advance(p, c, color);
    assert p'.cells[..p.pos] == p.cells[..p.pos];
    assert p'.cells[start..p'.pos] == p.cells[start..p.pos] + [Cell(color, c)];
  }

  lemma SameSlice(a: seq<int>, b: seq<int>, i: nat, n: nat)
    requires i <= n <= |a| && n <= |b| && a[..n] == b[..n]
    ensures a[i..n] == b[i..n]
  {
    assert a[i..n] == a[..n][i..] && b[i..n] == b[..n][i..];
  }

  lemma ShorterSlice(a: seq<int>, i: nat, n: nat)
    requires i < n <= |a|
    ensures a[i..n - 1] == a[i..n][..n - 1 - i]
  {
  }

  /** A backspace shortens the echo and touches nothing before the line. */
  lemma EchoErased(p: Paper, start: int, line: seq<Char>, color: nat)
    requires p.Valid() && line != []
    requires p.Top() <= start && p.pos == start + |line| && p.cells[start..p.pos] == Echo(line, color)
    ensures !p.AtOrigin()
    ensures var p' := Advance(p, BACKSPACE_CHAR, color);
            && p'.Top() <= start && p'.pos == start + |line| - 1
            && p'.cells[start..p'.pos] == Echo(Pop(line), color)
            && Kept(p, p', start)
  {
    var p' := Advance(p, BACKSPACE_CHAR, color);
    assert p'.cells[..p.pos - 1] == p.cells[..p.pos - 1];
    SameSlice(p'.cells, p.cells, start, p.pos - 1);
    ShorterSlice(p.cells, start, p.pos);
    assert Echo(line, color)[..|line| - 1] == Echo(Pop(line), color);
  }

  /** The first k cells of the paper are as they were. */
  predicate Kept(p: Paper, p': Paper, k: int) {
    0 <= k <= |p.cells| && k <= |p'.cells| && p'.cells[..k] == p.cells[..k]
  }

  lemma HeldAfter(was: seq<int>, text: seq<Char>, k: nat, c: Char)
    requires k + 1 < |was| && |text| <= |was| && was[..|text|] == text
    ensures was[k := c][k + 1 := 0][..|text|] == text <==> !Clobbers(text, k, c)
  {
    var now := was[k := c][k + 1 := 0];
    assert forall i | 0 <= i < |text| :: was[i] == text[i];
    if now[..|text|] == text {
      assert k < |text| ==> now[..|text|][k] == text[k];
      assert k + 1 < |text| ==> now[..|text|][k + 1] == text[k + 1];
    }
  }

  lemma HeldAfterErase(was: seq<int>, text: seq<Char>, k: nat)
    requires k < |was| && |text| <= |was| && was[..|text|] == text
    ensures was[k := 0][..|text|] == text <==> !Blots(text, k)
  {
    assert forall i | 0 <= i < |text| :: was[i] == text[i];
    if was[k := 0][..|text|] == text {
      assert k < |text| ==> was[k := 0][..|text|][k] == text[k];
    }
  }

  /** Not one of the characters the screen treats specially. */
  predicate Prints(c: Char) {
    c !in [BACKSPACE_CHAR, TAB_CHAR, NEWLINE, RETURN]
  }

  /** Printing characters go one behind the other and leave what was there before. */
  lemma {:induction false} PrintedRun(p: Paper, s: seq<Char>, color: nat)
    requires p.Valid() && forall x | x in s :: Prints(x)
    ensures Stays(p, s, color)
    ensures var p' := AdvanceAll(p, s, color);
            p'.pos == p.pos + |s| && p.pos <= |p'.cells| && p'.cells[..p.pos] == p.cells[..p.pos]
    ensures s != [] || !p.AtOrigin() ==> !AdvanceAll(p, s, color).AtOrigin()
    decreases |s|
  {
    if s != [] {
      assert s[0] in s && Prints(s[0]);
      var p1 := Advance(p, s[0], color);
      assert p1.pos == p.pos + 1 && p1.cells[..p.pos] == p.cells[..p.pos] && !p1.AtOrigin();
      PrintedRun(p1, s[1..], color);
      var p' := AdvanceAll(p1, s[1..], color);
      assert p'.cells[..p.pos] == p'.cells[..p1.pos][..p.pos];
    }
  }

  /** Printed ASCII text stands on the paper cell by cell, character in the low byte and color in the high one. */
  lemma {:induction false} PrintedText(p: Paper, s: seq<Char>, color: nat, i: nat)
    requires p.Valid() && (forall x | x in s :: Prints(x) && x >= 0) && color < 256 && i < |s|
    ensures Stays(p, s, color)
    ensures var p' := AdvanceAll(p, s, color);
            p.pos + i < |p'.cells| && p'.cells[p.pos + i] == 256 * color + s[i]
    decreases |s|
  {
    assert s[0] in s;
    var p1 := Advance(p, s[0], color);
    PrintedRun(p1, s[1..], color);
    if i == 0 {
      CellBytes(color, s[0]);
      var p' := AdvanceAll(p1, s[1..], color);
      assert p1.cells[p.pos] == Cell(color, s[0]);
      assert p'.cells[p.pos] == p'.cells[..p1.pos][p.pos] == p1.cells[..p1.pos][p.pos];
    } else {
      PrintedText(p1, s[1..], color, i - 1);
    }
  }

  /**
   Why the kernel must not print into a line being typed: the next backspace takes the last typed
   character c off the screen if and only if nothing was printed after it, and otherwise takes what
   was printed last.
   */
  lemma OutputErased(p: Paper, c: Char, s: seq<Char>, color: nat)
    requires p.Valid() && Prints(c) && Cell(color, c) != BLANK && forall x | x in s :: Prints(x)
    ensures var p1 := Advance(p, c, color);
            && Stays(p1, s, color) && !AdvanceAll(p1, s, color).AtOrigin()
            && var p3 := Advance(AdvanceAll(p1, s, color), BACKSPACE_CHAR, color);
               && p3.pos == p.pos + |s| && p.pos + |s| < |p3.cells| && p3.cells[p.pos + |s|] == BLANK
               && (p3.cells[p.pos] == BLANK <==> s == [])
  {
    var p1 := Advance(p, c, color);
    assert p1.cells[p.pos] == Cell(color, c) && !p1.AtOrigin();
    PrintedRun(p1, s, color);
    var p2 := AdvanceAll(p1, s, color);
    assert p2.cells[p.pos] == p2.cells[..p1.pos][p.pos] == p1.cells[..p1.pos][p.pos];
  }

  class Tty {
    /** VGA text memory and the cursor registers. */
    const vga: array<int>
    var cursor: nat
    var color: nat
    var last: int
    ghost var paper: Paper

    /** The line buffer, where the next character goes, where the entered line ends. */
    const buf: array<int>
    var bufptr: nat
    var tmp: nat
    var kbd: Kbd
    var flush: bool
    ghost var line: seq<Char>
    ghost var start: int

    constructor (vga: array<int>, buf: array<int>, cursor: nat)
      requires vga.Length == 2000 && buf.Length == 512 && vga != buf && cursor < CELLS
      ensures this.vga == vga && this.buf == buf && EditorOk()
      ensures kbd == Kbd(false, false, false, false) && !flush && line == []
    {
      this.vga, this.buf, this.cursor := vga, buf, cursor;
      color, last, bufptr, tmp, flush := 7, 0, 0, 0, false;
      kbd := Kbd(false, false, false, false);
      paper := Paper(vga[..], cursor);
      line, start := [], cursor;
    }

    /** The screen is the last 25 rows of the paper. */
    ghost predicate Shows()
      reads this, vga
    {
      && vga.Length == CELLS
      && paper.Valid()
      && vga[..] == paper.cells[paper.Top()..]
      && cursor == paper.pos - paper.Top()
    }

    /** `memcpy` of one row. */
    method CopyRow(to: nat, from: nat)
      requires vga.Length == CELLS && to < HEIGHT && from < HEIGHT && to != from
      modifies vga
      ensures forall k | 0 <= k < CELLS ::
                vga[k] == if k / WIDTH == to then old(vga[k - WIDTH * to + WIDTH * from]) else old(vga[k])
    {
      forall k | 0 <= k < WIDTH {
        vga[WIDTH * to + k] := vga[WIDTH * from + k];
      }
    }

    /** Drops the first row, shifts the others up and clears the last. */
    method Scroll()
      requires vga.Length == CELLS
      modifies vga
      ensures vga[..] == old(vga[80..]) + seq(80, _ => 0x0720)
    {
      ghost var was := vga[..];
      var i := 1;
      while i <= HEIGHT - 1
        invariant 1 <= i <= HEIGHT
        invariant forall k | 0 <= k < WIDTH * (i - 1) :: vga[k] == was[k + WIDTH]
        invariant forall k | WIDTH * (i - 1) <= k < CELLS :: vga[k] == was[k]
      {
        CopyRow(i - 1, i);
        i := i + 1;
      }
      var j := 0;
      while j < WIDTH
        invariant 0 <= j <= WIDTH
        invariant forall k | 0 <= k < CELLS - WIDTH :: vga[k] == was[k + WIDTH]
        invariant forall k | CELLS - WIDTH <= k < CELLS - WIDTH + j :: vga[k] == BLANK
      {
        vga[CELLS - WIDTH + j] := BLANK;
        j := j + 1;
      }
      assert vga[..] == was[80..] + seq(80, _ => 0x0720);
    }

    /** The `switch` of `tty_writechar`: changes at most one cell, none when the store goes before the screen. */
    method Print(c: Char) returns (x: int, y: int)
      requires Shows()
      modifies vga
      ensures (x, y) == SwitchXY(cursor, c)
      ensures vga[..] == if c == BACKSPACE_CHAR && cursor == 0 then old(vga[..]) else Printed(paper, c, color)[paper.Top()..]
    {
      x, y := cursor % WIDTH, cursor / WIDTH;
      if c == NEWLINE {
        y := y + 1;
        x := 0;
      } else if c == RETURN {
        x := 0;
      } else if c == TAB_CHAR {
        x := (x + 8) / 8 * 8;
      } else if c == BACKSPACE_CHAR {
        if cursor > 0 {
          vga[cursor - 1] := BLANK;
        }
        x := x - 1;
      } else {
        vga[cursor] := Cell(color, c);
        x := x + 1;
      }
    }

    /** The rest of `tty_writechar`: wrap the line, scroll, move the cursor. */
    method Settle(x0: int, y0: int)
      requires vga.Length == CELLS
      modifies this`cursor, vga
      ensures cursor == CursorAt(x0, y0)
      ensures vga[..] == if WrapXY(x0, y0).1 >= HEIGHT then old(vga[..])[WIDTH..] + Blanks(WIDTH) else old(vga[..])
    {
      var x, y := x0, y0;
      if x >= WIDTH {
        x := 0;
        y := y + 1;
      }
      if x < 0 {
        x := x + WIDTH;
        y := y - 1;
      }
      if y >= HEIGHT {
        y := HEIGHT - 1;
        Scroll();
      }
      cursor := (y * WIDTH + x) % 0x10000;
    }

    /**
     One character. The screen stays the window of the paper exactly when it is not a backspace at
     the origin; that one leaves the cells alone and takes the cursor off the screen.
     */
    method WriteChar(c: Char)
      requires Shows()
      modifies this`cursor, this`last, this`paper, vga
      ensures Shows() <==> !(c == BACKSPACE_CHAR && old(cursor) == 0)
      ensures !(c == BACKSPACE_CHAR && old(cursor) == 0) ==> paper == Advance(old(paper), c, color)
      ensures !(c == 8 && old(cursor) == 0) ==> PlainStep(old(vga[..]), old(cursor), color, c, vga[..], cursor)
      ensures c == BACKSPACE_CHAR && old(cursor) == 0 ==>
                vga[..] == old(vga[..]) && cursor == 0xFFFF && paper == old(paper)
      ensures last == if c == BACKSPACE_CHAR then old(last) else c
    {
      ghost var was, cur, p := vga[..], cursor, paper;
      if c == BACKSPACE_CHAR && cursor == 0 {
        var x, y := Print(c);
        Settle(x, y);
        return;
      }
      Draw(c);
      PaperIsPlain(p, c, color, was, cur, vga[..], cursor);
      if c != BACKSPACE_CHAR {
        last := c;
      }
    }

    /** Print and settle, on the screen. */
    method Draw(c: Char)
      requires Shows() && !(c == BACKSPACE_CHAR && cursor == 0)
      modifies this`cursor, this`paper, vga
      ensures Shows() && paper == Advance(old(paper), c, color)
    {
      StepFollowsPaper(paper, c, color);
      var x, y := Print(c);
      Settle(x, y);
      paper := Advance(paper, c, color);
    }

    /** After any stream that never backspaces at the origin the screen is the window of its paper. */
    method Write(data: seq<Char>) returns (n: nat)
      requires Shows() && Stays(paper, data, color)
      modifies this`cursor, this`last, this`paper, vga
      ensures Shows() && paper == AdvanceAll(old(paper), data, color) && n == |data|
    {
      n := 0;
      ghost var goal := AdvanceAll(paper, data, color);
      while n < |data|
        invariant 0 <= n <= |data| && color == old(color)
        invariant Shows() && Stays(paper, data[n..], color)
        invariant AdvanceAll(paper, data[n..], color) == goal
      {
        AdvanceNext(paper, data, n, color);
        WriteChar(data[n]);
        n := n + 1;
      }
    }

    /** A blank screen, which is a new sheet of paper. */
    method Clear()
      requires vga.Length == CELLS
      modifies this`cursor, this`paper, vga
      ensures Shows() && paper == Paper(Blanks(CELLS), 0)
      ensures cursor == 0 && vga[..] == seq(2000, _ => 0x0720)
    {
      var i: int := WIDTH * HEIGHT;
      while i > 0
        invariant 0 <= i <= CELLS
        invariant forall k | i <= k < CELLS :: vga[k] == BLANK
      {
        i := i - 1;
        vga[i] := BLANK;
      }
      cursor := 0;
      paper := Paper(Blanks(CELLS), 0);
    }

    // ----- The line editor -----------------------------------------------------------------

    /** The buffer holds the line being typed, and the screen shows it from where it started. */
    ghost predicate EditorOk()
      reads this, vga, buf
    {
      && Shows()
      && vga != buf && buf.Length == 512
      && bufptr == |line| <= CAPACITY && tmp <= CAPACITY
      && buf[..bufptr] == line
      && paper.Top() <= start && paper.pos == start + |line|
      && paper.cells[start..paper.pos] == Echo(line, color)
    }

    /** The entered line is still what the reader will copy. */
    ghost predicate Holds(text: seq<Char>)
      reads this, buf
    {
      tmp == |text| && tmp <= buf.Length && buf[..tmp] == text
    }

    /** An ordinary character: echoed and stored. */
    method Type(c: Char)
      requires EditorOk() && |line| < CAPACITY && c !in [BACKSPACE_CHAR, TAB_CHAR, NEWLINE, RETURN]
      modifies this`cursor, this`last, this`paper, this`bufptr, this`line, vga, buf
      ensures EditorOk() && line == old(line) + [c] && paper == Advance(old(paper), c, color)
      ensures Kept(old(paper), paper, start)
      ensures forall text | old(Holds(text)) :: Holds(text) <==> !Clobbers(text, old(bufptr), c)
    {
      EchoTyped(paper, start, line, c, color);
      ghost var was, k := buf[..], bufptr;
      WriteChar(c);
      buf[bufptr] := c;
      bufptr := bufptr + 1;
      buf[bufptr] := 0;
      line := line + [c];
      assert buf[..] == was[k := c][k + 1 := 0];
      forall text | tmp == |text| && was[..tmp] == text ensures buf[..tmp] == text <==> !Clobbers(text, k, c) {
        HeldAfter(was, text, k, c);
      }
    }

    /** Backspace: takes back the last character of the line, and nothing at its start. */
    method EraseLast()
      requires EditorOk()
      modifies this`cursor, this`last, this`paper, this`bufptr, this`line, vga, buf
      ensures EditorOk() && line == Pop(old(line))
      ensures paper == if old(line) == [] then old(paper) else Advance(old(paper), BACKSPACE_CHAR, color)
      ensures Kept(old(paper), paper, start)
      ensures buf[..] == if old(line) == [] then old(buf[..]) else old(buf[..])[old(bufptr) - 1 := 0]
      ensures forall text | old(Holds(text)) :: Holds(text) <==> old(line) == [] || !Blots(text, old(bufptr) - 1)
    {
      if bufptr <= 0 {
        bufptr := 0;
        return;
      }
      EchoErased(paper, start, line, color);
      ghost var was := buf[..];
      WriteChar(BACKSPACE_CHAR);
      bufptr := bufptr - 1;
      buf[bufptr] := 0;
      line := Pop(line);
      assert buf[..] == was[bufptr := 0];
      forall text | tmp == |text| && was[..tmp] == text ensures buf[..tmp] == text <==> !Blots(text, bufptr) {
        HeldAfterErase(was, text, bufptr);
      }
    }

    /** Enter: hands the line to the reader and starts the next one. */
    method EnterLine()
      requires EditorOk()
      modifies this`cursor, this`last, this`paper, this`bufptr, this`tmp, this`flush, this`line, this`start, vga
      ensures EditorOk() && line == [] && start == paper.pos && paper == Advance(old(paper), NEWLINE, color)
      ensures Kept(old(paper), paper, old(start))
      ensures flush && tmp == |old(line)| && buf[..tmp] == old(line) && buf[..] == old(buf[..])
    {
      WriteChar(NEWLINE);
      flush := true;
      tmp := bufptr;
      bufptr := 0;
      line, start := [], paper.pos;
    }

    /**
     One keyboard interrupt. The line is edited as a stack, the screen echoes it, nothing before the
     line's start changes, and a waiting line survives unless the new character falls on it.
     */
    method KbdIrq(scancode: nat)
      requires EditorOk() && scancode < 0x100 && !Meaning(kbd, scancode).Beyond?
      requires Meaning(kbd, scancode).Press? ==> |line| < CAPACITY
      modifies this`cursor, this`last, this`paper, this`bufptr, this`tmp, this`flush, this`line, this`start, this`kbd, vga, buf
      ensures EditorOk() && kbd == NextKbd(old(kbd), scancode)
      ensures Kept(old(paper), paper, old(start))
      ensures match Meaning(old(kbd), scancode)
              case Press(c) =>
                && line == old(line) + [c] && start == old(start) && flush == old(flush) && tmp == old(tmp)
                && paper == Shown(old(paper), c, color)
                && forall text | old(Holds(text)) :: Holds(text) <==> !Clobbers(text, old(bufptr), c)
              case Erase =>
                && line == Pop(old(line)) && start == old(start) && flush == old(flush) && tmp == old(tmp)
                && paper == (if old(line) == [] then old(paper) else Shown(old(paper), BACKSPACE_CHAR, color))
                && buf[..] == (if old(line) == [] then old(buf[..]) else old(buf[..])[old(bufptr) - 1 := 0])
                && forall text | old(Holds(text)) :: Holds(text) <==> old(line) == [] || !Blots(text, old(bufptr) - 1)
              case Enter => line == [] && flush && Holds(old(line)) && paper == Shown(old(paper), NEWLINE, color)
              case Silent =>
                && line == old(line) && start == old(start) && paper == old(paper)
                && flush == old(flush) && tmp == old(tmp) && buf[..] == old(buf[..])
    {
      PressIsPlain(kbd, scancode);
      var silent := Modifier(scancode);
      if silent {
      } else if scancode == ENTER {
        EnterLine();
      } else if scancode == BACKSPACE {
        EraseLast();
      } else {
        Type(Decode(kbd, scancode));
      }
    }

    /** The cases of `kbd_irq` that only follow the modifier keys. */
    method Modifier(scancode: nat) returns (silent: bool)
      requires scancode < 0x100
      modifies this`kbd
      ensures kbd == NextKbd(old(kbd), scancode)
      ensures silent == Meaning(old(kbd), scancode).Silent? && (!silent ==> kbd == old(kbd))
    {
      silent := true;
      if scancode >= 0x80 {
        var code := scancode % 0x80;
        if code == CTRL {
          kbd := kbd.(ctrl := false);
        } else if code == LSHIFT || code == RSHIFT {
          kbd := kbd.(shift := false);
        } else if code == ALT {
          kbd := kbd.(alt := false);
        }
      } else if scancode == TAB {
      } else if scancode == CTRL {
        kbd := kbd.(ctrl := true);
      } else if scancode == LSHIFT || scancode == RSHIFT {
        kbd := kbd.(shift := true);
      } else if scancode == CAPS {
        kbd := kbd.(caps := !kbd.caps);
      } else if scancode == ALT {
        kbd := kbd.(alt := true);
      } else {
        silent := false;
      }
    }

    /** The start of `tty_read`: the line being typed is dropped, one already entered is not. */
    method ReadReset()
      requires EditorOk()
      modifies this`bufptr, this`line, this`start
      ensures EditorOk() && line == [] && start == paper.pos
      ensures flush == old(flush) && forall text | old(Holds(text)) :: Holds(text)
    {
      bufptr := 0;
      line, start := [], paper.pos;
    }

    /** The rest of `tty_read`, once Enter has been seen. */
    method ReadCollect() returns (text: seq<int>)
      requires EditorOk() && flush
      modifies this`flush, this`tmp
      ensures EditorOk() && !flush && text == old(buf[..tmp])
    {
      flush := false;
      var size := tmp;
      tmp := 0;
      text := buf[..size];
    }

    /**
     `tty_read`, with the keys that arrive while it waits and then Enter. It returns the edit of the keys
     since its reset if and only if no line was waiting then; otherwise it takes that line at once.
     */
    method Read(keys: seq<nat>) returns (text: seq<int>, taken: nat)
      requires EditorOk() && ENTER !in keys && Room(kbd, [], keys)
      modifies this`cursor, this`last, this`paper, this`bufptr, this`tmp, this`flush, this`line, this`start, this`kbd, vga, buf
      ensures EditorOk() && !flush
      ensures taken == if old(flush) then 0 else |keys| + 1
      ensures text == if old(flush) then old(buf[..tmp]) else Edit(old(kbd), [], keys)
    {
      ReadReset();
      taken := 0;
      if !flush {
        TypeKeys(keys);
        KbdIrq(ENTER);
        taken := |keys| + 1;
      }
      text := ReadCollect();
    }

    /** Keys other than Enter, one interrupt after the other. */
    method TypeKeys(keys: seq<nat>)
      requires EditorOk() && ENTER !in keys && Room(kbd, line, keys)
      modifies this`cursor, this`last, this`paper, this`bufptr, this`tmp, this`flush, this`line, this`start, this`kbd, vga, buf
      ensures EditorOk() && line == Edit(old(kbd), old(line), keys) && flush == old(flush)
      ensures ModifiersAre(old(kbd), keys, kbd)
    {
      ghost var goal := Edit(kbd, line, keys);
      for i := 0 to |keys|
        invariant EditorOk() && flush == old(flush)
        invariant kbd == KbdAfter(old(kbd), keys[..i]) && forall j | 0 <= j < i :: keys[j] < 0x100
        invariant Room(kbd, line, keys[i..]) && Edit(kbd, line, keys[i..]) == goal
      {
        assert keys[i..][0] == keys[i] && keys[i..][1..] == keys[i + 1..] && keys[i] in keys;
        assert keys[..i + 1][..i] == keys[..i];
        KbdIrq(keys[i]);
      }
      assert keys[..|keys|] == keys;
      ModifierHistory(old(kbd), keys);
    }

    /**
     Kernel output. Between lines it is harmless whatever it is, and the next line starts where it ends;
     printed into a line being typed it breaks the agreement of screen and buffer unless it is empty.
     */
    method Output(data: seq<Char>)
      requires EditorOk() && Stays(paper, data, color)
      modifies this`cursor, this`last, this`paper, this`start, vga
      ensures Shows() && paper == AdvanceAll(old(paper), data, color)
      ensures line == [] ==> EditorOk() && start == paper.pos
      ensures (forall x | x in data :: Prints(x)) ==> (EditorOk() <==> line == [] || data == [])
    {
      if forall x | x in data :: Prints(x) { PrintedRun(paper, data, color); }
      var n := Write(data);
      start := if line == [] then paper.pos else start;
    }

    /** The driver's state follows the ideal session, whatever becomes of a pending line. */
    ghost predicate Follows(s: Session)
      reads this, vga, buf
    {
      && EditorOk()
      && kbd == s.kbd && line == s.current
      && paper == s.paper && color == s.color
    }

    /** And the pending lines are the one the reader will copy, or none. */
    ghost predicate Agrees(s: Session)
      reads this, vga, buf
    {
      && Follows(s)
      && |s.pending| <= 1 && flush == (s.pending != [])
      && (flush ==> Holds(s.pending[0]))
    }

    /**
     One event: a key interrupts, the reader takes its next step, or the kernel prints. The driver
     follows the ideal session, and agrees on the pending lines exactly when the event spares them.
     */
    method Handle(e: Event, ghost s: Session) returns (text: seq<seq<int>>)
      requires Agrees(s) && InRange(s, e)
      modifies this`cursor, this`last, this`paper, this`bufptr, this`tmp, this`flush, this`line, this`start, this`kbd, vga, buf
      ensures Follows(Ideal(s, e)) && Ideal(s, e).read == s.read + text
      ensures Agrees(Ideal(s, e)) <==> Spares(s, e)
    {
      text := [];
      match e
      case Key(code) =>
        HandleKey(code, s);
      case Reset =>
        ReadReset();
      case Collect =>
        if flush {
          var line := ReadCollect();
          text := [line];
        }
      case Output(data) =>
        Output(data);
    }

    method HandleKey(code: nat, ghost s: Session)
      requires Agrees(s) && InRange(s, Key(code))
      modifies this`cursor, this`last, this`paper, this`bufptr, this`tmp, this`flush, this`line, this`start, this`kbd, vga, buf
      ensures Follows(Ideal(s, Key(code)))
      ensures Agrees(Ideal(s, Key(code))) <==> Spares(s, Key(code))
    {
      PressIsPlain(kbd, code);
      if line != [] { EchoErased(paper, start, line, color); }
      KbdIrq(code);
    }

    /**
     Every interleaving of keys, readers and kernel output in which each pending line is spared and the
     buffer does not overflow: the readers get exactly the lines of the ideal discipline.
     */
    method Interleave(es: seq<Event>, ghost s: Session) returns (texts: seq<seq<int>>)
      requires Agrees(s) && CalmRun(s, es)
      modifies this`cursor, this`last, this`paper, this`bufptr, this`tmp, this`flush, this`line, this`start, this`kbd, vga, buf
      ensures Agrees(IdealRun(s, es)) && IdealRun(s, es).read == s.read + texts
    {
      texts := [];
      ghost var now, goal := s, IdealRun(s, es);
      for i := 0 to |es|
        invariant Agrees(now) && CalmRun(now, es[i..]) && now.read == s.read + texts
        invariant IdealRun(now, es[i..]) == goal
      {
        assert es[i..] == [es[i]] + es[i + 1..];
        RunCons(now, es[i], es[i + 1..]);
        var text := Handle(es[i], now);
        now := Ideal(now, es[i]);
        assert s.read + texts + text == s.read + (texts + text);
        texts := texts + text;
      }
    }

    // ----- Lines that go wrong ---------------------------------------------------------------------

    /** A spoiled line: with "a" entered and not yet collected, typing "b" makes the reader get "b". */
    method SpoiledLine() returns (text: seq<int>)
      requires EditorOk() && line == [] && kbd == Kbd(false, false, false, false)
      modifies this`cursor, this`last, this`paper, this`bufptr, this`tmp, this`flush, this`line, this`start, this`kbd, vga, buf
      ensures KeysAB() && text == ['b' as int] && text != ['a' as int]
    {
      DecodeAB();
      EnterA();
      KbdIrq(KEY_B);
      text := ReadCollect();
    }

    /** An overwritten line: with "a" entered and not yet collected, a second Enter makes the reader get nothing. */
    method OverwrittenLine() returns (text: seq<int>)
      requires EditorOk() && line == [] && kbd == Kbd(false, false, false, false)
      modifies this`cursor, this`last, this`paper, this`bufptr, this`tmp, this`flush, this`line, this`start, this`kbd, vga, buf
      ensures text == [] && !flush
    {
      DecodeAB();
      EnterA();
      KbdIrq(ENTER);
      text := ReadCollect();
    }

    /** A line from before: a reader that starts after "a" was entered gets it, whatever is typed later. */
    method EarlierLine(keys: seq<nat>) returns (text: seq<int>, taken: nat)
      requires EditorOk() && line == [] && kbd == Kbd(false, false, false, false)
      requires ENTER !in keys && Room(kbd, [], keys)
      modifies this`cursor, this`last, this`paper, this`bufptr, this`tmp, this`flush, this`line, this`start, this`kbd, vga, buf
      ensures text == ['a' as int] && taken == 0
    {
      DecodeAB();
      EnterA();
      text, taken := Read(keys);
    }

    /** Shift pressed and released again types a small letter. */
    method ShiftReleased()
      requires EditorOk() && line == [] && kbd == Kbd(false, false, false, false)
      modifies this`cursor, this`last, this`paper, this`bufptr, this`tmp, this`flush, this`line, this`start, this`kbd, vga, buf
      ensures line == ['a' as int] && !kbd.shift
    {
      DecodeAB();
      KbdIrq(0x2A);
      KbdIrq(0xAA);
      KbdIrq(0x1E);
    }

    method EnterA()
      requires EditorOk() && line == [] && kbd == Kbd(false, false, false, false) && KeysAB()
      modifies this`cursor, this`last, this`paper, this`bufptr, this`tmp, this`flush, this`line, this`start, this`kbd, vga, buf
      ensures EditorOk() && line == [] && kbd == old(kbd) && flush && Holds(['a' as int])
    {
      KbdIrq(KEY_A);
      KbdIrq(ENTER);
    }
  }
}
