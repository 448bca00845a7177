/** The console: `putc`, `puts`, `writef` and the end of `scanf`, on video memory. */
module Console {
  import opened ConsoleModel
  import opened ConsoleRuns

  const LETTER_A: int := 65

  class Terminal {
    /** The characters of video memory: the screen and the first cell behind it, which is read but never written. */
    const cells: array<int>
    var x: int
    var y: int
    var outX: int
    var outY: int

    ghost predicate Valid()
      reads this
    {
      && cells.Length == CELLS + 1
      && 0 <= x < SCREEN_WIDTH && 0 <= y < SCREEN_HEIGHT
      && 0 <= outX < SCREEN_WIDTH && 0 <= outY < SCREEN_HEIGHT
    }

    /** The screen as it is now. */
    ghost function Now(): Screen
      reads this, cells
    {
      Screen(cells[..], x, y, outX, outY)
    }

    ghost function OutPos(): int
      reads this
    {
      Cell(outX, outY)
    }

    /** Cursor at or behind the output position. */
    predicate CursorFree()
      reads this
    {
      y > outY || (y == outY && x >= outX)
    }

    /** The two loops of `scrollback(1)`: every row moves up by one, and the last row is cleared. */
    method MoveRowsUp()
      requires cells.Length == CELLS + 1
      modifies cells
      ensures forall j :: 0 <= j < CELLS - SCREEN_WIDTH ==> cells[j] == old(cells[j + SCREEN_WIDTH])
      ensures forall j :: CELLS - SCREEN_WIDTH <= j < CELLS ==> cells[j] == 0
    {
      var i := SCREEN_WIDTH;
      while i < CELLS
        invariant SCREEN_WIDTH <= i <= CELLS
        invariant forall j :: 0 <= j < i - SCREEN_WIDTH ==> cells[j] == old(cells[j + SCREEN_WIDTH])
        invariant forall j :: i - SCREEN_WIDTH <= j < cells.Length ==> cells[j] == old(cells[j])
      {
        cells[i - SCREEN_WIDTH] := cells[i];
        i := i + 1;
      }
      i := CELLS - SCREEN_WIDTH;
      while i < CELLS
        invariant CELLS - SCREEN_WIDTH <= i <= CELLS
        invariant forall j :: CELLS - SCREEN_WIDTH <= j < i ==> cells[j] == 0
        invariant forall j :: 0 <= j < CELLS - SCREEN_WIDTH ==> cells[j] == old(cells[j + SCREEN_WIDTH])
      {
        cells[i] := 0;
        i := i + 1;
      }
    }

    /** `scrollback(1)`, with the cursor one row below the screen. */
    method Scroll()
      requires cells.Length == CELLS + 1 && 0 <= x < SCREEN_WIDTH && y == SCREEN_HEIGHT
      requires 0 <= outX < SCREEN_WIDTH && 0 <= outY < SCREEN_HEIGHT
      modifies this, cells
      ensures Valid() && y == SCREEN_HEIGHT - 1 && x == old(x)
      ensures Kept(old(cells[..]), cells[..], CELLS, 1) && OutPos() == Raised(old(OutPos()), 1)
      ensures forall i :: CELLS - SCREEN_WIDTH <= i < CELLS ==> cells[i] == 0
    {
      ghost var before := cells[..];
      MoveRowsUp();
      assert Kept(before, cells[..], CELLS, 1) by {
        forall i | SCREEN_WIDTH <= i < CELLS
          ensures cells[..][i - SCREEN_WIDTH] == before[i]
        {
          var j := i - SCREEN_WIDTH;
          assert cells[j] == before[j + SCREEN_WIDTH];
        }
      }
      y := y - 1;
      outY := outY - 1;
      if outY < 0 {
        outY, outX := 0, 0;
      }
    }

    /** `putc_skip_line_check`: wraps the cursor to the next line and scrolls if that is below the screen. */
    method WrapLine() returns (ghost k: nat)
      requires cells.Length == CELLS + 1 && 0 <= x <= SCREEN_WIDTH && 0 <= y <= SCREEN_HEIGHT
      requires y == SCREEN_HEIGHT ==> x == 0
      requires 0 <= outX < SCREEN_WIDTH && 0 <= outY < SCREEN_HEIGHT
      modifies this, cells
      ensures Valid() && k <= 1 && (k == 1 ==> x == 0 && y == SCREEN_HEIGHT - 1)
      ensures Kept(old(cells[..]), cells[..], CELLS, k) && OutPos() == Raised(old(OutPos()), k)
      ensures Cell(x, y) == old(Cell(x, y)) - SCREEN_WIDTH * k && x == (if old(x) == SCREEN_WIDTH then 0 else old(x))
      ensures k == 0 ==> cells[..] == old(cells[..]) && OutPos() == old(OutPos())
      ensures k == 0 ==> y == if old(x) == SCREEN_WIDTH then old(y) + 1 else old(y)
    {
      k := 0;
      if x >= SCREEN_WIDTH {
        x := 0;
        y := y + 1;
      }
      if y >= SCREEN_HEIGHT {
        Scroll();
        k := 1;
      }
    }

    /** On an empty cell the cursor moves left to the end of the text of its line. */
    method SnapToText()
      requires cells.Length == CELLS + 1 && 0 <= x <= SCREEN_WIDTH && 0 <= y <= SCREEN_HEIGHT
      requires y == SCREEN_HEIGHT ==> x == 0
      modifies this`x
      ensures 0 <= x <= old(x) && (x != old(x) ==> cells[Cell(old(x), y)] == 0)
      ensures NextToText(cells[..], x, y) && EmptyUpTo(cells[..], x, old(x), y)
    {
      if cells[Cell(x, y)] == 0 {
        var i := x - 1;
        while i >= 0
          invariant -1 <= i < x
          invariant forall k :: i < k < x ==> cells[Cell(k, y)] == 0
        {
          if cells[Cell(i, y)] != 0 {
            x := i + 1;
            return;
          }
          i := i - 1;
        }
        x := 0;
      }
    }

    method SetCell(i: nat, c: int)
      requires i < cells.Length
      modifies cells
      ensures cells[..] == old(cells[..])[i := c]
    {
      cells[i] := c;
    }

    /** Tells whether text follows behind column `x` of row `y`. */
    method TextFollows(x: int, y: int) returns (follows: bool)
      requires cells.Length == CELLS + 1 && 0 <= x < SCREEN_WIDTH && 0 <= y < SCREEN_HEIGHT
      ensures follows <==> FollowedByText(cells[..], Cell(x, y))
    {
      var i := x + 1;
      while i < SCREEN_WIDTH
        invariant x < i <= SCREEN_WIDTH
        invariant forall j :: Cell(x, y) < j < Cell(i, y) ==> cells[j] == 0
      {
        if cells[Cell(i, y)] != 0 {
          SameRow(x, y, Cell(i, y));
          assert cells[..][Cell(i, y)] != 0;
          return true;
        }
        i := i + 1;
      }
      forall j | Cell(x, y) < j < |cells[..]| && j / SCREEN_WIDTH == Cell(x, y) / SCREEN_WIDTH
        ensures cells[..][j] == 0
      {
        SameRow(x, y, j);
      }
      return false;
    }

    /** Erases the character in front of the cursor, unless it was printed. */
    method Backspace()
      requires Valid()
      modifies this`x, this`y, cells
      ensures Valid() && OutPos() == old(OutPos())
      ensures Kept(old(cells[..]), cells[..], OutPos(), 0)
      ensures if old(Cell(x, y)) > OutPos() then
          && Cell(x, y) == old(Cell(x, y)) - 1 && Erased(old(cells[..]), cells[..], Cell(x, y))
        else cells[..] == old(cells[..]) && x == old(x) && y == old(y)
    {
      hide FollowedByText;
      if (y > 0 || x > 0) && (y > outY || (y == outY && x > outX)) {
        x := x - 1;
        if x < 0 {
          x := SCREEN_WIDTH - 1;
          y := y - 1;
        }
        ghost var before := cells[..];
        var follows := TextFollows(x, y);
        SetCell(Cell(x, y), if follows then BLANK else 0);
      }
    }

    /** The raw moves of the cursor by the arrow keys, the line feed and the carriage return. */
    method MoveCursor(c: int)
      requires Valid()
      modifies this`x, this`y
      ensures -1 <= x <= SCREEN_WIDTH && 0 <= y <= SCREEN_HEIGHT
      ensures (y == SCREEN_HEIGHT ==> x == 0) && (x == -1 ==> 0 < y < SCREEN_HEIGHT)
      ensures CursorKey(c) ==> (x, y) == Target(cells[..], old(x), old(y), outY, c)
    {
      if c == NEWLINE {
        x := 0;
        y := y + 1;
      } else if c == RETURN {
        x := 0;
      } else if c == KEY_UP {
        if y > 0 {
          y := y - 1;
        }
      } else if c == KEY_DOWN {
        if y < outY {
          y := y + 1;
        }
      } else if c == KEY_LEFT {
        if y > 0 || x > 0 {
          x := x - 1;
        }
      } else if c == KEY_RIGHT {
        if cells[Cell(x, y)] == 0 {
          if y < outY {
            y := y + 1;
            x := 0;
          }
        } else {
          x := x + 1;
        }
      }
    }

    /** A plain character written at the cursor. */
    method WritePlain(c: int) returns (ghost k: nat)
      requires Valid() && CursorFree()
      modifies this, cells
      ensures Valid() && k <= 1 && (k == 1 ==> x == 0 && y == SCREEN_HEIGHT - 1)
      ensures OutPos() == Raised(old(OutPos()), k)
      ensures Cell(x, y) == old(Cell(x, y)) + 1 - SCREEN_WIDTH * k && x == (if old(x) + 1 == SCREEN_WIDTH then 0 else old(x) + 1)
      ensures Kept(old(cells[..]), cells[..], old(Cell(x, y)), k)
      ensures Filled(c, old(Cell(x, y)), old(Cell(x, y)) + 1, cells[..], k)
    {
      hide Kept, Raised, Filled;
      ghost var before, pos := cells[..], Cell(x, y);
      SetCell(Cell(x, y), c);
      x := x + 1;
      k := WrapLine();
      KeptNarrower(before[pos := c], cells[..], CELLS, pos + 1, k);
      WrittenAt(before, pos, c, cells[..], k);
    }

    /** A plain character: written at the cursor, but only at or behind the output position. */
    method PutPlain(c: int) returns (ghost k: nat)
      requires Valid()
      modifies this, cells
      ensures Valid() && k <= 1 && (k == 1 ==> x == 0 && y == SCREEN_HEIGHT - 1)
      ensures OutPos() == Raised(old(OutPos()), k) && Kept(old(cells[..]), cells[..], old(OutPos()), k)
      ensures old(CursorFree()) ==>
        && CursorFree() && Cell(x, y) == old(Cell(x, y)) + 1 - SCREEN_WIDTH * k
        && x == (if old(x) + 1 == SCREEN_WIDTH then 0 else old(x) + 1)
        && Kept(old(cells[..]), cells[..], old(Cell(x, y)), k)
        && Filled(c, old(Cell(x, y)), old(Cell(x, y)) + 1, cells[..], k)
      ensures !old(CursorFree()) ==> k == 0 && cells[..] == old(cells[..]) && y == old(y) && x <= old(x)
      ensures !old(CursorFree()) ==> NextToText(cells[..], x, y) && EmptyUpTo(cells[..], x, old(x), y)
    {
      hide Kept, Raised, Filled;
      if CursorFree() {
        ghost var before, pos, limit := cells[..], Cell(x, y), OutPos();
        k := WritePlain(c);
        KeptNarrower(before, cells[..], pos, limit, k);
        RaisedBelow(limit, pos, k);
      } else {
        KeptSame(cells[..], OutPos());
        SnapToText();
        k := WrapLine();
      }
    }

    /** A tab: blanks up to the next multiple of four, which never cross the end of a line. */
    method PutTab() returns (ghost k: nat)
      requires Valid()
      modifies this, cells
      ensures Valid() && k <= 1 && (k == 1 ==> x == 0 && y == SCREEN_HEIGHT - 1)
      ensures OutPos() == Raised(old(OutPos()), k) && Kept(old(cells[..]), cells[..], old(OutPos()), k)
      ensures if old(CursorFree()) then
          && CursorFree() && Cell(x, y) == Advance(old(Cell(x, y)), TAB) - SCREEN_WIDTH * k
          && Kept(old(cells[..]), cells[..], old(Cell(x, y)), k)
          && Filled(BLANK, old(Cell(x, y)), Advance(old(Cell(x, y)), TAB), cells[..], k)
        else k == 0 && cells[..] == old(cells[..])
    {
      hide Kept, Raised, Filled;
      k := 0;
      KeptSame(cells[..], OutPos());
      KeptSame(cells[..], Cell(x, y));
      NothingFilled(BLANK, Cell(x, y), cells[..]);
      var blanks := 4 - x % 4;
      ghost var first, start, limit := cells[..], Cell(x, y), OutPos();
      TabStop(x, y);
      var i := 0;
      while i < blanks
        invariant 0 <= i <= blanks && Valid() && k <= 1 && (k == 1 ==> i == blanks && x == 0 && y == SCREEN_HEIGHT - 1)
        invariant OutPos() == Raised(limit, k) && Kept(first, cells[..], limit, k)
        invariant CursorFree() == old(CursorFree())
        invariant if old(CursorFree()) then
            && x == (if old(x) + i == SCREEN_WIDTH then 0 else old(x) + i)
            && Cell(x, y) == start + i - SCREEN_WIDTH * k
            && Kept(first, cells[..], start, k) && Filled(BLANK, start, start + i, cells[..], k)
          else k == 0 && cells[..] == first
      {
        ghost var before, pos := cells[..], Cell(x, y);
        ghost var k' := PutPlain(BLANK);
        KeptAgain(first, before, cells[..], limit, k, k');
        if CursorFree() {
          OneMoreBlank(first, before, cells[..], start, i, pos, k, k');
        }
        k := k + k';
        i := i + 1;
      }
    }

    /** What `putc` does after everything but a plain character: it leaves column -1, snaps to the text and wraps. */
    method FinishLine() returns (ghost k: nat)
      requires cells.Length == CELLS + 1 && -1 <= x <= SCREEN_WIDTH && 0 <= y <= SCREEN_HEIGHT
      requires (y == SCREEN_HEIGHT ==> x == 0) && (x == -1 ==> 0 < y < SCREEN_HEIGHT)
      requires 0 <= outX < SCREEN_WIDTH && 0 <= outY < SCREEN_HEIGHT
      modifies this, cells
      ensures Valid() && k <= 1 && (old(Valid()) ==> k == 0)
      ensures OutPos() == Raised(old(OutPos()), k) && Kept(old(cells[..]), cells[..], CELLS, k)
      ensures (k == 1 ==> x == 0 && y == SCREEN_HEIGHT - 1)
      ensures k == 0 ==> cells[..] == old(cells[..]) && OutPos() == old(OutPos())
      ensures Lands(cells[..], old(x), old(y), x, y, k)
    {
      hide Kept, Raised, NextToText, EmptyUpTo;
      if x < 0 {
        y := y - 1;
        y := if y < 0 then 0 else y;
        x := SCREEN_WIDTH - 1;
      }
      SnapToText();
      k := WrapLine();
      if x == 0 {
        StartsRow(cells[..], y);
      }
    }

    /** A cursor key, line feed or carriage return. */
    method PressKey(c: int) returns (ghost k: nat)
      requires Valid() && CursorKey(c)
      modifies this, cells
      ensures Typed(old(Now()), c, Now(), k) && Kept(old(cells[..]), cells[..], CELLS, k)
    {
      hide Kept, Raised, NextToText, EmptyUpTo, Lands, Shows;
      ghost var s := Now();
      MoveCursor(c);
      k := FinishLine();
      LandsNextToText(cells[..]);
      KeptNarrower(s.cells, cells[..], CELLS, s.Out(), k);
      assert Aimed(s, c, Now(), k);
      if c == NEWLINE && s.Free() {
        KeptNarrower(s.cells, cells[..], CELLS, s.Pos(), k);
        NextLine(s, Now(), k);
      }
    }

    method PressTab() returns (ghost k: nat)
      requires Valid()
      modifies this, cells
      ensures Typed(old(Now()), TAB, Now(), k)
    {
      hide Kept, Raised, Filled, Advance, Lands, NextToText, Typed, Advanced, Shows;
      ghost var s := Now();
      k := PutTab();
      ghost var u := Now();
      ghost var k' := FinishLine();
      if s.Free() {
        TabEnds(s, u, k);
      }
      LandsThere(cells[..], u.x, u.y, x, y, k');
      TabTyped(s, u, Now(), k);
    }

    method PressBackspace() returns (ghost k: nat)
      requires Valid()
      modifies this, cells
      ensures Typed(old(Now()), KEY_BACKSPACE, Now(), k)
    {
      hide Kept, Raised, Erased, Lands, NextToText;
      ghost var s := Now();
      Backspace();
      k := FinishLine();
      KeptSame(cells[..], OutPos());
      LandsNextToText(cells[..]);
    }

    method PressPlain(c: int) returns (ghost k: nat)
      requires Valid() && Plain(c)
      modifies this, cells
      ensures Typed(old(Now()), c, Now(), k)
    {
      hide Kept, Raised, Filled, Advance, NextToText;
      ghost var s := Now();
      k := PutPlain(c);
      PlainAdvance(s.Pos(), c);
    }

    /** `putc`. */
    method Putc(c: int) returns (ghost k: nat)
      requires Valid()
      modifies this, cells
      ensures Valid() && Typed(old(Now()), c, Now(), k)
    {
      if c == TAB {
        k := PressTab();
      } else if c == KEY_BACKSPACE {
        k := PressBackspace();
      } else if c == NEWLINE || c == RETURN || c == KEY_UP || c == KEY_DOWN || c == KEY_LEFT || c == KEY_RIGHT {
        k := PressKey(c);
      } else {
        k := PressPlain(c);
      }
      TypedValid(old(Now()), c, Now(), k);
    }

    /** Any sequence of characters and keys. */
    method PutAll(cs: seq<int>) returns (ghost trace: seq<Screen>, ghost moved: seq<nat>)
      requires Valid()
      modifies this, cells
      ensures Valid() && Typing(cs, trace, moved) && |moved| == |cs| && trace[0] == old(Now()) && trace[|cs|] == Now()
      ensures Rows(moved, 0, |cs|) <= |cs| && OutPos() == Raised(old(OutPos()), Rows(moved, 0, |cs|))
      ensures Kept(old(cells[..]), cells[..], old(OutPos()), Rows(moved, 0, |cs|))
      ensures old(CursorFree()) && AllForward(cs, |cs|) ==>
        old(Now()).Valid() && Standing(old(Now()), cs, |cs|, Now(), Rows(moved, 0, |cs|))
      ensures old(CursorFree()) && AllPlain(cs, |cs|) ==>
        && Cell(x, y) == old(Cell(x, y)) + |cs| - SCREEN_WIDTH * Rows(moved, 0, |cs|)
        && Shown(old(cells[..Cell(x, y)]) + cs, cells[..Cell(x, y)], Rows(moved, 0, |cs|))
    {
      hide Typing, Typed, Kept, Raised, AllForward, AllPlain, Standing, Shown;
      trace, moved := [Now()], [];
      TypingStarts(cs, Now());
      var i := 0;
      while i < |cs|
        invariant 0 <= i <= |cs| && |moved| == i && |trace| == i + 1 && Valid()
        invariant Typing(cs, trace, moved) && trace[0] == old(Now()) && trace[i] == Now()
      {
        ghost var k := Putc(cs[i]);
        TypingGrows(cs, trace, moved, Now(), k);
        trace, moved := trace + [Now()], moved + [k];
        i := i + 1;
      }
      TypingKeeps(cs, trace, moved, |cs|);
      if old(CursorFree()) && AllForward(cs, |cs|) {
        TypingStands(cs, trace, moved, |cs|);
      }
      if old(CursorFree()) && AllPlain(cs, |cs|) {
        PlainIsForward(cs);
        TypingStands(cs, trace, moved, |cs|);
        PlainStands(old(Now()), cs, Now(), Rows(moved, 0, |cs|));
      }
    }

    /** `puts`. */
    method PutText(text: seq<int>) returns (ghost k: nat)
      requires Valid() && CursorFree() && AllPlain(text, |text|)
      modifies this, cells
      ensures Valid() && Cell(x, y) == old(Cell(x, y)) + |text| - SCREEN_WIDTH * k
      ensures Shown(old(cells[..Cell(x, y)]) + text, cells[..Cell(x, y)], k)
    {
      hide Kept, Raised, Typing, AllForward, AllPlain, Standing, Shown;
      ghost var trace, moved := PutAll(text);
      k := Rows(moved, 0, |text|);
    }

    /** The end of `writef`: the output position follows the cursor, but never goes back. */
    method UpdateOutput()
      requires Valid()
      modifies this`outX, this`outY
      ensures Valid() && Now() == old(Now()).AfterPrint() && OutPos() >= old(OutPos())
      ensures y >= old(outY) ==> OutPos() == if Cell(x, y) > old(OutPos()) then Cell(x, y) else old(OutPos())
    {
      if y > outY {
        outX, outY := x, y;
      } else {
        outX := if outX > x then outX else x;
      }
    }

    /** `writef` for a text whose conversions have been made. What was printed before stays. */
    method Print(text: seq<int>) returns (ghost k: nat)
      requires Valid()
      modifies this, cells
      ensures Valid() && k <= |text| && Printed(old(Now()), text, Now(), k)
      ensures OutPos() >= Raised(old(OutPos()), k) && Kept(old(cells[..]), cells[..], old(OutPos()), k)
      ensures old(CursorFree()) && AllForward(text, |text|) ==>
        CursorFree() && OutPos() == Cell(x, y) == Place(old(Cell(x, y)), text, |text|) - SCREEN_WIDTH * k
      ensures old(CursorFree()) && AllForward(text, |text|) ==>
        Written(old(Cell(x, y)), text, |text|, cells[..], k) && Kept(old(cells[..]), cells[..], old(Cell(x, y)), k)
      ensures old(CursorFree()) && AllPlain(text, |text|) ==>
        && OutPos() == Cell(x, y) == old(Cell(x, y)) + |text| - SCREEN_WIDTH * k
        && Shown(old(cells[..Cell(x, y)]) + text, cells[..OutPos()], k)
    {
      hide Typing, Kept, Raised, AllForward, AllPlain, Written, Shown;
      ghost var s := Now();
      ghost var trace, moved := PutAll(text);
      UpdateOutput();
      k := Rows(moved, 0, |text|);
      assert PrintedBy(s, text, Now(), k, trace, moved);
      PrintKeeps(s, text, Now(), k);
      if s.Free() && AllForward(text, |text|) {
        PrintStands(s, text, Now(), k);
      }
      if s.Free() && AllPlain(text, |text|) {
        PlainIsForward(text);
        PrintStands(s, text, Now(), k);
        PlainStands(s, text, Now(), k);
      }
    }

    /**
      Whatever keys follow, a printed text that never takes the cursor back stays on the screen, each character at its
      place, but for what leaves the screen at the top.
     */
    method PrintThenKeys(text: seq<int>, keys: seq<int>) returns (ghost k: nat)
      requires Valid() && CursorFree() && AllForward(text, |text|)
      modifies this, cells
      ensures Valid() && k <= |text| + |keys| && OutPos() == Raised(Place(old(Cell(x, y)), text, |text|), k)
      ensures Written(old(Cell(x, y)), text, |text|, cells[..], k) && Kept(old(cells[..]), cells[..], old(Cell(x, y)), k)
      ensures AllPlain(text, |text|) && SCREEN_WIDTH * k <= old(Cell(x, y)) + |text| ==>
        Shown(old(cells[..Cell(x, y)]) + text, cells[..OutPos()], k)
    {
      hide Kept, Raised, AllForward, AllPlain, Shown, Typing, Written, Place, Printed, Standing, Rows;
      ghost var s := Now();
      ghost var k1 := Print(text);
      ghost var u := Now();
      ghost var trace, moved := PutAll(keys);
      k := k1 + Rows(moved, 0, |keys|);
      StaysAfterKeys(s, text, u, Now(), k1, k - k1);
    }

    /** The end of `scanf`: the output position is put where the cursor is. */
    method EndScan()
      requires Valid()
      modifies this`outX, this`outY
      ensures Valid() && Now() == old(Now()).AfterScan()
      ensures OutPos() >= old(OutPos()) <==> old(CursorFree())
    {
      outX, outY := x, y;
      if outX < 0 {
        assert false; // the cursor is on the screen
      }
    }

    /** The console while the kernel prints and scans and somebody presses keys; `moved` counts rows. */
    method Session(events: seq<Event>) returns (ghost trace: seq<Screen>, ghost moved: seq<nat>)
      requires Valid()
      modifies this, cells
      ensures Valid() && IsSession(events, trace, moved) && |moved| == |events|
      ensures trace[0] == old(Now()) && trace[|events|] == Now()
    {
      hide IsSession, Printed, Typed, Kept, Raised, Written, AllForward;
      trace, moved := [Now()], [];
      SessionStarts(events, Now());
      for i := 0 to |events|
        invariant Valid() && |moved| == i && |trace| == i + 1
        invariant IsSession(events, trace, moved) && trace[0] == old(Now()) && trace[i] == Now()
      {
        ghost var k := 0;
        match events[i] {
          case Print(text) =>
            k := Print(text);
          case Key(c) =>
            k := Putc(c);
          case ScanEnds =>
            EndScan();
        }
        SessionGrows(events, trace, moved, Now(), k);
        trace, moved := trace + [Now()], moved + [k];
      }
    }

    /**
      A carriage return leaves the text of its line in reach: once `A` and a return have been printed, two keys
      erase the `A`. `printed` is the screen in between.
     */
    method ReturnUncovers() returns (ghost printed: seq<int>)
      requires Valid() && x == 0 && y == 0 && outX == 0 && outY == 0
      modifies this, cells
      ensures Valid() && |printed| > 0 && printed[0] == LETTER_A && Erased(printed, cells[..], 0)
    {
      hide Kept, Erased, Typed, Shows, Advance;
      ghost var s0 := Now();
      ghost var k := Putc(LETTER_A);
      OneTyped(s0, Now(), k);
      ghost var s1 := Now();
      k := Putc(RETURN);
      ReturnLands(s1, Now(), k);
      UpdateOutput();
      printed := cells[..];
      ghost var s2 := Now();
      k := Putc(KEY_RIGHT);
      RightLands(s2, Now(), k);
      ghost var s3 := Now();
      k := Putc(KEY_BACKSPACE);
      BackspaceErases(s3, Now(), k);
    }

    /**
      A scan takes the output position back if the cursor is moved up before the line feed that ends it: `A` is printed
      in the second row, and the keys up, line feed, right and backspace erase it. `printed` is the screen in between.
     */
    method ScanUncovers() returns (ghost printed: seq<int>)
      requires Valid() && x == 0 && y == 1 && outX == 0 && outY == 1
      modifies this, cells
      ensures Valid() && |printed| == CELLS + 1 && printed[SCREEN_WIDTH] == LETTER_A && Erased(printed, cells[..], SCREEN_WIDTH)
    {
      hide Kept, Erased, Typed, Raised, Written, Place, Printed, AllForward;
      ghost var s0 := Now();
      ghost var k := Print([LETTER_A]);
      OnePrinted(s0, Now(), k);
      printed := cells[..];
      ghost var s1 := Now();
      k := Putc(KEY_UP);
      UpLands(s1, Now(), k);
      ghost var s2 := Now();
      k := Putc(NEWLINE);
      NewlineLands(s2, Now(), k);
      EndScan();
      ghost var s3 := Now();
      k := Putc(KEY_RIGHT);
      RightLands(s3, Now(), k);
      ghost var s4 := Now();
      k := Putc(KEY_BACKSPACE);
      BackspaceErases(s4, Now(), k);
    }
  }

  lemma NothingFilled(c: int, from: int, cells: seq<int>)
    ensures Filled(c, from, from, cells, 0)
  {
  }

  /** A tab ends in its row, or at the start of the next one. */
  lemma TabStop(x: int, y: int)
    requires 0 <= x < SCREEN_WIDTH && y >= 0
    ensures Advance(Cell(x, y), TAB) == Cell(x, y) + (4 - x % 4) && x + (4 - x % 4) <= SCREEN_WIDTH
  {
    assert Cell(x, y) == 4 * (20 * y) + x;
    SameRemainder(20 * y, x);
  }

  lemma SameRemainder(q: int, x: int)
    ensures (4 * q + x) % 4 == x % 4
  {
    var r := x / 4;
    assert x == 4 * r + x % 4;
    assert 4 * q + x == 4 * (q + r) + x % 4;
  }

  lemma OneMoreBlank(first: seq<int>, a: seq<int>, b: seq<int>, start: nat, i: nat, pos: nat, k: nat, k': nat)
    requires Kept(first, a, start, k) && Filled(BLANK, start, start + i, a, k)
    requires pos == start + i - SCREEN_WIDTH * k && pos < |a|
    requires Kept(a, b, pos, k') && Filled(BLANK, pos, pos + 1, b, k')
    ensures Kept(first, b, start, k + k') && Filled(BLANK, start, start + i + 1, b, k + k')
  {
    RaisedMore(start, start + i, k);
    KeptNarrower(a, b, pos, Raised(start, k), k');
    KeptAgain(first, a, b, start, k, k');
    FilledKept(BLANK, start, start + i, a, b, pos, k, k');
    hide Kept;
  }

  lemma TypedValid(s: Screen, c: int, t: Screen, k: nat)
    requires s.Valid() && Typed(s, c, t, k)
    ensures t.Valid()
  {
  }

  lemma PlainAdvance(pos: nat, c: int)
    ensures Plain(c) ==> Advance(pos, c) == pos + 1 && Glyph(c) == c
  {
  }

  /** Behind a tab the cursor stands next to a blank or at the start of a row. */
  lemma TabEnds(s: Screen, u: Screen, k: nat)
    requires s.Valid() && u.Valid() && k <= 1 && (k == 1 ==> u.x == 0)
    requires u.Pos() == Advance(s.Pos(), TAB) - SCREEN_WIDTH * k
    requires Filled(BLANK, s.Pos(), Advance(s.Pos(), TAB), u.cells, k)
    ensures u.x == 0 || u.cells[Cell(u.x - 1, u.y)] == BLANK
  {
    if u.x > 0 {
      assert Cell(u.x - 1, u.y) == Advance(s.Pos(), TAB) - 1;
    }
  }

  lemma TabTyped(s: Screen, u: Screen, t: Screen, k: nat)
    requires s.Valid() && u.Valid() && t.Valid() && k <= 1 && (k == 1 ==> u.x == 0 && u.y == SCREEN_HEIGHT - 1)
    requires u.Out() == Raised(s.Out(), k) && Kept(s.cells, u.cells, s.Out(), k)
    requires if s.Free() then
        && u.Free() && u.Pos() == Advance(s.Pos(), TAB) - SCREEN_WIDTH * k && Kept(s.cells, u.cells, s.Pos(), k)
        && Filled(BLANK, s.Pos(), Advance(s.Pos(), TAB), u.cells, k)
      else k == 0 && u.cells == s.cells
    requires t.cells == u.cells && t.Out() == u.Out() && t.y == u.y && t.x <= u.x && NextToText(t.cells, t.x, t.y)
    requires s.Free() ==> t.x == u.x
    ensures Typed(s, TAB, t, k)
  {
    hide Kept, Raised, Filled, Advance, NextToText;
  }

  lemma RaisedBelow(limit: int, pos: int, k: nat)
    requires 0 <= limit <= pos && pos + 1 >= SCREEN_WIDTH * k
    ensures Raised(limit, k) <= pos + 1 - SCREEN_WIDTH * k
  {
  }

  /** A cursor aimed right behind text, or at the start of a line, stays there. */
  lemma LandsThere(cells: seq<int>, mx: int, my: int, x: int, y: int, k: nat)
    requires |cells| == CELLS + 1 && 0 <= mx < SCREEN_WIDTH && 0 <= my < SCREEN_HEIGHT && Lands(cells, mx, my, x, y, k)
    ensures k == 0 && y == my && x <= mx && NextToText(cells, x, y)
    ensures mx == 0 || cells[Cell(mx - 1, my)] != 0 ==> x == mx
  {
  }

  lemma LandsNextToText(cells: seq<int>)
    ensures forall mx, my, x, y, k {:trigger Lands(cells, mx, my, x, y, k)} :: Lands(cells, mx, my, x, y, k) ==> NextToText(cells, x, y)
  {
  }

  /** A line feed from a free cursor. */
  lemma NextLine(s: Screen, t: Screen, k: nat)
    requires s.Valid() && s.Free() && t.Valid() && Aimed(s, NEWLINE, t, k) && t.Out() == Raised(s.Out(), k)
    requires Kept(s.cells, t.cells, s.Pos(), k)
    ensures Advanced(s, NEWLINE, t, k)
  {
    hide Kept, Shows, NextToText, EmptyUpTo;
    assert s.Pos() / SCREEN_WIDTH == s.y;
    NewlineShowsNothing(s.Pos(), t.cells, k);
  }

  lemma NewlineShowsNothing(pos: nat, cells: seq<int>, k: nat)
    ensures Shows(NEWLINE, pos, cells, k)
  {
  }

  lemma StartsRow(cells: seq<int>, y: int)
    requires 0 <= y && Cell(0, y) < |cells|
    ensures NextToText(cells, 0, y)
  {
  }

  lemma SameRow(x: int, y: int, j: nat)
    requires 0 <= x < SCREEN_WIDTH && 0 <= y && Cell(x, y) <= j
    ensures j / SCREEN_WIDTH == Cell(x, y) / SCREEN_WIDTH <==> j < Cell(SCREEN_WIDTH, y)
  {
    assert Cell(x, y) / SCREEN_WIDTH == y;
  }

  lemma FirstShown(cells: seq<int>, pos: nat)
    requires pos < |cells|
    ensures Shows(LETTER_A, pos, cells, 0) ==> cells[pos] == LETTER_A
  {
  }

  /** One character typed at the start of a row that is not the last. */
  lemma OneTyped(s: Screen, t: Screen, k: nat)
    requires s.Valid() && s.x == 0 && s.y + 1 < SCREEN_HEIGHT && s.Pos() == s.Out() && Typed(s, LETTER_A, t, k)
    ensures k == 0 && t.x == 1 && t.y == s.y && t.cells[s.Pos()] == LETTER_A && t.Out() == s.Out()
  {
    hide Kept, Shows;
    FirstShown(t.cells, s.Pos());
  }

  lemma OnePrinted(s: Screen, t: Screen, k: nat)
    requires Printed(s, [LETTER_A], t, k)
    requires s.Valid() && s.x == 0 && s.y + 1 < SCREEN_HEIGHT && s.Pos() == s.Out()
    ensures k == 0 && t.x == 1 && t.y == s.y && t.cells[s.Pos()] == LETTER_A && t.Out() == t.Pos()
  {
    hide Typed, Typing, Shows;
    var trace, moved :| PrintedBy(s, [LETTER_A], t, k, trace, moved);
    TypingStep([LETTER_A], trace, moved, 0);
    OneTyped(s, trace[1], moved[0]);
    OutMoves(trace[1]);
    NoRows(moved, 0);
  }
}
