/** The console screen and what one character or key does to it. */
module ConsoleModel {

  const SCREEN_WIDTH: nat := 80
  const SCREEN_HEIGHT: nat := 25
  const CELLS: nat := 2000

  const NEWLINE: int := 10
  const TAB: int := 9
  const RETURN: int := 13
  const KEY_BACKSPACE: int := 0x08
  const KEY_UP: int := 0x85
  const KEY_DOWN: int := 0x86
  const KEY_LEFT: int := 0x87
  const KEY_RIGHT: int := 0x88
  const BLANK: int := 32

  function Cell(x: int, y: int): int {
    y * SCREEN_WIDTH + x
  }

  predicate Plain(c: int) {
    && c != NEWLINE && c != TAB && c != RETURN && c != KEY_BACKSPACE
    && c != KEY_UP && c != KEY_DOWN && c != KEY_LEFT && c != KEY_RIGHT
  }

  predicate CursorKey(c: int) {
    c == NEWLINE || c == RETURN || c == KEY_UP || c == KEY_DOWN || c == KEY_LEFT || c == KEY_RIGHT
  }

  /** Characters that never take the cursor back. */
  predicate Forward(c: int) {
    Plain(c) || c == NEWLINE || c == TAB
  }

  /** Where a key aims at: column -1 is the end of the line above, column 80 and row 25 are outside the screen. */
  function Target(cells: seq<int>, x: int, y: int, outY: int, c: int): (int, int)
    requires 0 <= x < SCREEN_WIDTH && 0 <= y < SCREEN_HEIGHT && |cells| == CELLS + 1
  {
    if c == NEWLINE then (0, y + 1)
    else if c == RETURN then (0, y)
    else if c == KEY_UP then (x, if y > 0 then y - 1 else 0)
    else if c == KEY_DOWN then (x, if y < outY then y + 1 else y)
    else if c == KEY_LEFT then (if y > 0 || x > 0 then x - 1 else 0, y)
    else if cells[Cell(x, y)] != 0 then (x + 1, y)
    else if y < outY then (0, y + 1)
    else (x, y)
  }

  /**
    The cursor, aimed at column `mx` of row `my`, comes to stand at `x`, `y`: at the end of the text if no text
    reaches that far, on the next line behind the last column, and on the last row if the screen had to move up.
   */
  ghost predicate Lands(cells: seq<int>, mx: int, my: int, x: int, y: int, k: nat) {
    NextToText(cells, x, y) &&
    if mx == -1 then k == 0 && y == my - 1 && x < SCREEN_WIDTH && EmptyUpTo(cells, x, SCREEN_WIDTH - 1, y)
    else if my == SCREEN_HEIGHT then k == 1 && x == 0 && y == SCREEN_HEIGHT - 1
    else if mx == SCREEN_WIDTH && x == 0 && y == SCREEN_HEIGHT - 1 && k == 1 then my == SCREEN_HEIGHT - 1
    else if mx == SCREEN_WIDTH && x == 0 && y == my + 1 then k == 0
    else k == 0 && y == my && x <= mx && EmptyUpTo(cells, x, mx, y)
  }

  /** The screen has moved up by `k` rows: cells in front of `limit` are where they were, `k` rows higher. */
  ghost predicate Kept(before: seq<int>, after: seq<int>, limit: int, k: nat) {
    && |before| == |after|
    && forall i :: 0 <= i < |before| && SCREEN_WIDTH * k <= i < limit ==> after[i - SCREEN_WIDTH * k] == before[i]
  }

  /** One cell lost its character: to a blank if text follows on its line, to an empty cell otherwise. */
  ghost predicate Erased(before: seq<int>, after: seq<int>, i: int) {
    && 0 <= i < |before| && |after| == |before|
    && after == before[i := if FollowedByText(before, i) then BLANK else 0]
  }

  ghost predicate FollowedByText(cells: seq<int>, i: nat) {
    exists j :: i < j < |cells| && j / SCREEN_WIDTH == i / SCREEN_WIDTH && cells[j] != 0
  }

  /** An output position `k` rows higher, or the first cell once it has left the screen. */
  function Raised(pos: int, k: nat): (r: int)
    ensures pos >= 0 ==> 0 <= r <= pos
  {
    if pos < SCREEN_WIDTH * k then 0 else pos - SCREEN_WIDTH * k
  }

  /** Column `x` of row `y` holds a character, or is right behind one, or starts the row. */
  ghost predicate NextToText(cells: seq<int>, x: int, y: int) {
    0 <= x <= SCREEN_WIDTH && 0 <= y && Cell(x, y) < |cells| &&
    (cells[Cell(x, y)] != 0 || x == 0 || cells[Cell(x - 1, y)] != 0)
  }

  /** No characters from column `x` up to, but not at, column `x'`. */
  ghost predicate EmptyBetween(cells: seq<int>, x: int, x': int, y: int) {
    0 <= x && 0 <= y && Cell(x', y) <= |cells| && forall i :: x <= i < x' ==> cells[Cell(i, y)] == 0
  }

  /** No characters from column `x` up to column `x'`, if these are different. */
  ghost predicate EmptyUpTo(cells: seq<int>, x: int, x': int, y: int) {
    EmptyBetween(cells, x, x', y) && Cell(x', y) < |cells| && (x < x' ==> cells[Cell(x', y)] == 0)
  }

  /** Where the cursor stands behind a character of a text that starts at `pos` and is not stopped by the end of the screen. */
  function Advance(pos: nat, c: int): (next: nat)
    ensures next > pos
  {
    if c == NEWLINE then (pos / SCREEN_WIDTH + 1) * SCREEN_WIDTH
    else if c == TAB then pos + 4 - pos % 4
    else pos + 1
  }

  /** What a character shows on the cells it goes over. */
  function Glyph(c: int): int {
    if c == TAB then BLANK else c
  }

  /** After the screen has moved up by `k` rows, the cells once numbered `from` to `to` hold `c`, as far as they are left. */
  ghost predicate Filled(c: int, from: int, to: int, cells: seq<int>, k: nat) {
    forall i :: 0 <= i < |cells| && from <= i + SCREEN_WIDTH * k < to ==> cells[i] == c
  }

  /** A character written at `pos` stands there; a line feed shows nothing. */
  ghost predicate Shows(c: int, pos: nat, cells: seq<int>, k: nat) {
    c != NEWLINE ==> Filled(Glyph(c), pos, Advance(pos, c), cells, k)
  }

  /** The characters on the screen, the cursor, and the output position. */
  datatype Screen = Screen(cells: seq<int>, x: int, y: int, outX: int, outY: int) {

    predicate Valid() {
      && |cells| == CELLS + 1
      && 0 <= x < SCREEN_WIDTH && 0 <= y < SCREEN_HEIGHT
      && 0 <= outX < SCREEN_WIDTH && 0 <= outY < SCREEN_HEIGHT
    }

    function Pos(): int {
      Cell(x, y)
    }

    function Out(): int {
      Cell(outX, outY)
    }

    /** The cursor is at or behind the output position. */
    predicate Free() {
      y > outY || (y == outY && x >= outX)
    }

    /** The end of `writef`: the output position follows the cursor, but never goes back. */
    function AfterPrint(): Screen {
      if y > outY then this.(outX := x, outY := y) else this.(outX := if outX > x then outX else x)
    }

    /** The end of a scan: the output position is put where the cursor is. */
    function AfterScan(): Screen {
      this.(outX := x, outY := y)
    }
  }

  /** The character was written at the cursor, and the cursor is behind it. */
  ghost predicate Advanced(s: Screen, c: int, t: Screen, k: nat)
    requires s.Valid()
  {
    && t.Free() && t.Pos() == Advance(s.Pos(), c) - SCREEN_WIDTH * k
    && Kept(s.cells, t.cells, s.Pos(), k) && Shows(c, s.Pos(), t.cells, k)
  }

  ghost predicate Aimed(s: Screen, c: int, t: Screen, k: nat)
    requires s.Valid()
  {
    var (mx, my) := Target(s.cells, s.x, s.y, s.outY, c);
    Lands(t.cells, mx, my, t.x, t.y, k) && (k == 0 ==> t.cells == s.cells)
  }

  ghost predicate Deleted(s: Screen, t: Screen)
    requires s.Valid()
  {
    if s.Pos() > s.Out() then
      && Erased(s.cells, t.cells, s.Pos() - 1)
      && if s.x > 0 then Lands(t.cells, s.x - 1, s.y, t.x, t.y, 0) else Lands(t.cells, SCREEN_WIDTH - 1, s.y - 1, t.x, t.y, 0)
    else t.cells == s.cells && Lands(t.cells, s.x, s.y, t.x, t.y, 0)
  }

  /**
    What `putc` does: the cursor stays on the screen and no cell in front of the output position changes,
    except that the whole screen may have moved up by one row (`k`).
    A plain character or a tab is written at the cursor if that is not in front of the output position, and is dropped
    otherwise; a backspace erases the character in front of the cursor if that one is not in front of the output
    position. A cursor key, line feed or carriage return takes the cursor where it aims, or to the end of the text there.
   */
  ghost predicate Typed(s: Screen, c: int, t: Screen, k: nat)
    requires s.Valid()
  {
    && t.Valid() && k <= 1 && (k == 1 ==> t.x == 0 && t.y == SCREEN_HEIGHT - 1)
    && t.Out() == Raised(s.Out(), k) && Kept(s.cells, t.cells, s.Out(), k)
    && (Forward(c) && s.Free() ==> Advanced(s, c, t, k))
    && ((Plain(c) || c == TAB) && !s.Free() ==> t.cells == s.cells)
    && (Plain(c) && !s.Free() ==> Lands(s.cells, s.x, s.y, t.x, t.y, k))
    && (!Plain(c) ==> NextToText(t.cells, t.x, t.y))
    && (CursorKey(c) ==> Aimed(s, c, t, k))
    && (c == KEY_BACKSPACE ==> k == 0 && Deleted(s, t))
  }

  // ---- moves of the screen ----

  lemma KeptSame(a: seq<int>, limit: int)
    requires limit >= 0
    ensures Kept(a, a, limit, 0) && Raised(limit, 0) == limit
  {
  }

  lemma KeptCell(a: seq<int>, b: seq<int>, limit: int, k: nat, j: nat)
    requires Kept(a, b, limit, k) && SCREEN_WIDTH * k <= j < limit && j < |a|
    ensures b[j - SCREEN_WIDTH * k] == a[j]
  {
  }

  lemma KeptNarrower(a: seq<int>, b: seq<int>, wide: int, limit: int, k: nat)
    requires Kept(a, b, wide, k) && limit <= wide
    ensures Kept(a, b, limit, k)
  {
  }

  /** Moves add up. */
  lemma KeptAgain(a: seq<int>, b: seq<int>, c: seq<int>, limit: int, k: nat, k': nat)
    requires Kept(a, b, limit, k) && Kept(b, c, Raised(limit, k), k')
    ensures Kept(a, c, limit, k + k') && Raised(Raised(limit, k), k') == Raised(limit, k + k')
  {
    var w, w' := SCREEN_WIDTH * k, SCREEN_WIDTH * k';
    forall i | 0 <= i < |a| && w + w' <= i < limit
      ensures c[i - w - w'] == a[i]
    {
      assert b[i - w] == a[i];
    }
  }

  lemma RaisedMore(p: int, q: int, k: nat)
    requires 0 <= p <= q
    ensures Raised(p, k) <= Raised(q, k) && Raised(q, k) == (if q >= SCREEN_WIDTH * k then q - SCREEN_WIDTH * k else 0)
  {
  }

  /** What stands in front of the limit goes on standing. */
  lemma FilledKept(c: int, from: int, to: int, a: seq<int>, b: seq<int>, limit: int, k: nat, k': nat)
    requires Filled(c, from, to, a, k) && Kept(a, b, limit, k')
    requires to - SCREEN_WIDTH * k <= limit <= |a|
    ensures Filled(c, from, to, b, k + k')
  {
    var w, w' := SCREEN_WIDTH * k, SCREEN_WIDTH * k';
    forall i | 0 <= i < |b| && from <= i + SCREEN_WIDTH * (k + k') < to
      ensures b[i] == c
    {
      assert a[i + w'] == c;
      assert b[i + w' - w'] == a[i + w'];
    }
  }

  /** One character written at `pos`. */
  lemma WrittenAt(a: seq<int>, pos: nat, c: int, b: seq<int>, k: nat)
    requires pos < |a| && Kept(a[pos := c], b, pos + 1, k)
    ensures Kept(a, b, pos, k) && Filled(c, pos, pos + 1, b, k)
  {
    forall i | 0 <= i < |b| && pos <= i + SCREEN_WIDTH * k < pos + 1
      ensures b[i] == c
    {
      assert a[pos := c][pos] == c;
      assert b[pos - SCREEN_WIDTH * k] == a[pos := c][pos];
    }
    forall i | SCREEN_WIDTH * k <= i < pos
      ensures b[i - SCREEN_WIDTH * k] == a[i]
    {
      assert a[pos := c][i] == a[i];
    }
  }
}
