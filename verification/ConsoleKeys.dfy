/** Each key by itself: which cell changes, and where the cursor stands afterwards. */
module ConsoleKeys {
  import opened ConsoleModel

  /** Column `x` is where a cursor aimed at column `mx` of row `y` stands: there, or behind the last text in front of it. */
  ghost predicate AtTextEnd(cells: seq<int>, mx: int, y: int, x: int)
    requires 0 <= mx < 80 && 0 <= y < 25 && |cells| == 2001
  {
    && 0 <= x <= mx
    && (x == 0 || cells[80 * y + x - 1] != 0 || cells[80 * y + x] != 0)
    && (x < mx ==> forall i :: 80 * y + x <= i <= 80 * y + mx ==> cells[i] == 0)
  }

  /** There is only one such column. */
  lemma TextEndUnique(cells: seq<int>, mx: int, y: int, x: int, x': int)
    requires 0 <= mx < 80 && 0 <= y < 25 && |cells| == 2001
    requires AtTextEnd(cells, mx, y, x) && AtTextEnd(cells, mx, y, x')
    ensures x == x'
  {
  }

  lemma Landed(cells: seq<int>, mx: int, my: int, x: int, y: int, k: nat)
    requires |cells| == 2001 && 0 <= mx < 80 && 0 <= my < 25 && Lands(cells, mx, my, x, y, k)
    ensures k == 0 && y == my && AtTextEnd(cells, mx, my, x)
  {
    forall i | 80 * my + x <= i <= 80 * my + mx && x < mx
      ensures cells[i] == 0
    {
      assert cells[Cell(i - 80 * my, my)] == 0;
    }
  }

  /** Nothing but the cursor moves. */
  ghost predicate CursorOnly(s: Screen, t: Screen) {
    t.cells == s.cells && t.Out() == s.Out()
  }

  lemma UpKey(s: Screen, t: Screen, k: nat)
    requires s.Valid() && Typed(s, 0x85, t, k)
    ensures k == 0 && CursorOnly(s, t) && t.y == (if s.y > 0 then s.y - 1 else 0) && AtTextEnd(s.cells, s.x, t.y, t.x)
  {
    hide Kept, Lands;
    var y := if s.y > 0 then s.y - 1 else 0;
    assert Lands(t.cells, s.x, y, t.x, t.y, k);
    Landed(t.cells, s.x, y, t.x, t.y, k);
  }

  lemma DownKey(s: Screen, t: Screen, k: nat)
    requires s.Valid() && Typed(s, 0x86, t, k)
    ensures k == 0 && CursorOnly(s, t) && t.y == (if s.y < s.outY then s.y + 1 else s.y) && AtTextEnd(s.cells, s.x, t.y, t.x)
  {
    hide Kept, Lands;
    var y := if s.y < s.outY then s.y + 1 else s.y;
    assert Lands(t.cells, s.x, y, t.x, t.y, k);
    Landed(t.cells, s.x, y, t.x, t.y, k);
  }

  /** From the first column the cursor goes to the end of the row above, and stays at the top left corner. */
  lemma LeftKey(s: Screen, t: Screen, k: nat)
    requires s.Valid() && Typed(s, 0x87, t, k)
    ensures k == 0 && CursorOnly(s, t)
    ensures s.x > 0 ==> t.y == s.y && AtTextEnd(s.cells, s.x - 1, s.y, t.x)
    ensures s.x == 0 && s.y > 0 ==> t.y == s.y - 1 && AtTextEnd(s.cells, 79, s.y - 1, t.x)
    ensures s.x == 0 && s.y == 0 ==> t.x == 0 && t.y == 0
  {
    hide Kept, Lands;
    if s.x > 0 {
      assert Lands(t.cells, s.x - 1, s.y, t.x, t.y, k);
      Landed(t.cells, s.x - 1, s.y, t.x, t.y, k);
    } else if s.y > 0 {
      assert Lands(t.cells, -1, s.y, t.x, t.y, k);
      LandedAbove(t.cells, s.y, t.x, t.y, k);
    } else {
      assert Lands(t.cells, 0, 0, t.x, t.y, k);
      Landed(t.cells, 0, 0, t.x, t.y, k);
    }
  }

  lemma LandedAbove(cells: seq<int>, my: int, x: int, y: int, k: nat)
    requires |cells| == 2001 && 0 < my < 25 && Lands(cells, -1, my, x, y, k)
    ensures k == 0 && y == my - 1 && AtTextEnd(cells, 79, my - 1, x)
  {
    assert Lands(cells, 79, my - 1, x, y, 0);
    Landed(cells, 79, my - 1, x, y, 0);
  }

  /** On text the cursor goes one column on, or to the next row, which can move the screen up; else to the next row above the output. */
  lemma RightKey(s: Screen, t: Screen, k: nat)
    requires s.Valid() && Typed(s, 0x88, t, k)
    ensures var here := s.cells[80 * s.y + s.x];
      && (here != 0 && s.x < 79 ==> k == 0 && CursorOnly(s, t) && t.x == s.x + 1 && t.y == s.y)
      && (here != 0 && s.x == 79 ==> t.x == 0 && k == (if s.y == 24 then 1 else 0) && t.y == s.y + 1 - k)
      && (here == 0 && s.y < s.outY ==> k == 0 && CursorOnly(s, t) && t.x == 0 && t.y == s.y + 1)
      && (here == 0 && s.y >= s.outY ==> k == 0 && CursorOnly(s, t) && t.y == s.y && AtTextEnd(s.cells, s.x, s.y, t.x))
  {
    hide Kept, Lands, EmptyUpTo, NextToText;
    var here := s.cells[80 * s.y + s.x];
    if here == 0 && s.y < s.outY {
      Landed(t.cells, 0, s.y + 1, t.x, t.y, k);
    } else if here == 0 {
      Landed(t.cells, s.x, s.y, t.x, t.y, k);
    } else if s.x < 79 {
      Landed(t.cells, s.x + 1, s.y, t.x, t.y, k);
      assert t.cells[80 * s.y + s.x] != 0;
      assert t.x <= s.x ==> 80 * s.y + t.x <= 80 * s.y + s.x;
    } else {
      RightWraps(s, t, k);
    }
  }

  lemma RightWraps(s: Screen, t: Screen, k: nat)
    requires s.Valid() && t.Valid() && Aimed(s, 0x88, t, k) && s.cells[80 * s.y + s.x] != 0 && s.x == 79 && k <= 1
    ensures t.x == 0 && k == (if s.y == 24 then 1 else 0) && t.y == s.y + 1 - k
  {
    LastColumn(t.cells, s.y);
  }

  /** A row whose last cell holds a character is empty from no column on. */
  lemma LastColumn(cells: seq<int>, y: int)
    requires |cells| == 2001 && 0 <= y < 25
    ensures cells[80 * y + 79] != 0 ==> forall x :: 0 <= x < 80 ==> !EmptyUpTo(cells, x, 80, y)
  {
    forall x | 0 <= x < 80 && EmptyUpTo(cells, x, 80, y)
      ensures cells[80 * y + 79] == 0
    {
      assert cells[Cell(79, y)] == 0;
    }
  }

  lemma ReturnKey(s: Screen, t: Screen, k: nat)
    requires s.Valid() && Typed(s, 13, t, k)
    ensures k == 0 && CursorOnly(s, t) && t.x == 0 && t.y == s.y
  {
    hide Kept;
    Landed(t.cells, 0, s.y, t.x, t.y, k);
  }

  /** The cursor goes to the start of the next row; from the last one the screen moves up instead. */
  lemma EnterKey(s: Screen, t: Screen, k: nat)
    requires s.Valid() && Typed(s, 10, t, k)
    ensures t.x == 0 && k == (if s.y == 24 then 1 else 0) && t.y == s.y + 1 - k && (k == 0 ==> CursorOnly(s, t))
  {
    hide Kept, Advanced;
    if s.y < 24 {
      Landed(t.cells, 0, s.y + 1, t.x, t.y, k);
    }
  }

  /** The character in front of the cursor goes, unless the output position is behind it: a blank takes its place in front of text. */
  lemma BackspaceKey(s: Screen, t: Screen, k: nat)
    requires s.Valid() && Typed(s, 8, t, k)
    ensures k == 0 && t.Out() == s.Out()
    ensures s.Pos() <= s.Out() ==> t.cells == s.cells && t.y == s.y && AtTextEnd(s.cells, s.x, s.y, t.x)
    ensures s.Pos() > s.Out() ==>
      var x, y := if s.x > 0 then s.x - 1 else 79, if s.x > 0 then s.y else s.y - 1;
      && 0 <= y && t.y == y && AtTextEnd(t.cells, x, y, t.x) && |t.cells| == 2001
      && (forall i :: 0 <= i < 2001 && i != 80 * y + x ==> t.cells[i] == s.cells[i])
      && t.cells[80 * y + x] == if exists j :: 80 * y + x < j < 80 * y + 80 && s.cells[j] != 0 then 32 else 0
  {
    hide Kept, Lands, FollowedByText, NextToText, EmptyUpTo, Advanced, Aimed, AtTextEnd;
    if s.Pos() <= s.Out() {
      Landed(t.cells, s.x, s.y, t.x, t.y, 0);
    } else {
      var x, y := if s.x > 0 then s.x - 1 else 79, if s.x > 0 then s.y else s.y - 1;
      assert 80 * y + x == s.Pos() - 1;
      Landed(t.cells, x, y, t.x, t.y, 0);
      RowFollows(s.cells, x, y);
    }
  }

  lemma RowFollows(cells: seq<int>, x: int, y: int)
    requires |cells| == 2001 && 0 <= x < 80 && 0 <= y < 25
    ensures FollowedByText(cells, 80 * y + x) <==> exists j :: 80 * y + x < j < 80 * y + 80 && cells[j] != 0
  {
    assert (80 * y + x) / 80 == y;
    if FollowedByText(cells, 80 * y + x) {
      var q :| 80 * y + x < q < |cells| && q / 80 == y && cells[q] != 0;
      assert q < 80 * y + 80;
    }
    if j :| 80 * y + x < j < 80 * y + 80 && cells[j] != 0 {
      assert j / 80 == y;
    }
  }

  /** A plain character in front of the output position is dropped; the cursor goes to the end of the text. */
  lemma DroppedKey(s: Screen, c: int, t: Screen, k: nat)
    requires s.Valid() && Plain(c) && (s.y < s.outY || (s.y == s.outY && s.x < s.outX)) && Typed(s, c, t, k)
    ensures k == 0 && CursorOnly(s, t) && t.y == s.y && AtTextEnd(s.cells, s.x, s.y, t.x)
  {
    hide Kept, Lands;
    Landed(s.cells, s.x, s.y, t.x, t.y, k);
  }

  /** Where the next character of a text goes: behind a tab at a multiple of four, behind a line feed at the start of a row. */
  lemma AdvanceMeans(pos: nat, c: int)
    ensures c == 10 ==> Advance(pos, c) % 80 == 0 && pos < Advance(pos, c) <= pos + 80
    ensures c == 9 ==> Advance(pos, c) % 4 == 0 && pos < Advance(pos, c) <= pos + 4 && Glyph(c) == 32
    ensures c != 10 && c != 9 ==> Advance(pos, c) == pos + 1 && Glyph(c) == c
  {
    if c == 9 {
      var q, r := pos / 4, pos % 4;
      assert pos + 4 - r == 4 * (q + 1);
    }
  }

  /** A printed text takes the output position along within its row and to lower rows, and never back. */
  lemma PrintMoves(s: Screen)
    requires s.Valid()
    ensures s.y > s.outY ==> s.AfterPrint() == Screen(s.cells, s.x, s.y, s.x, s.y)
    ensures s.y <= s.outY && s.x > s.outX ==> s.AfterPrint() == Screen(s.cells, s.x, s.y, s.x, s.outY)
    ensures s.y <= s.outY && s.x <= s.outX ==> s.AfterPrint() == s
  {
  }
}
