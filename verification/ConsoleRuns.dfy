/** Whole texts and sessions on the console: what has been printed stays, and exactly when. */
module ConsoleRuns {
  import opened ConsoleModel

  ghost predicate AllForward(cs: seq<int>, n: nat)
    requires n <= |cs|
  {
    forall i :: 0 <= i < n ==> Forward(cs[i])
  }

  ghost predicate AllPlain(cs: seq<int>, n: nat)
    requires n <= |cs|
  {
    forall i :: 0 <= i < n ==> Plain(cs[i])
  }

  lemma PlainIsForward(cs: seq<int>)
    ensures AllPlain(cs, |cs|) ==> AllForward(cs, |cs|)
  {
  }

  // ---- where the characters of a text stand ----

  /** The place of character `n` of a text that starts at `start`, counted as if the screen never moved. */
  function Place(start: nat, cs: seq<int>, n: nat): (p: nat)
    requires n <= |cs|
    ensures p >= start + n
  {
    if n == 0 then start else Advance(Place(start, cs, n - 1), cs[n - 1])
  }

  lemma {:induction false} PlaceOrder(start: nat, cs: seq<int>, i: nat, n: nat)
    requires i <= n <= |cs|
    ensures Place(start, cs, i) <= Place(start, cs, n)
    decreases n
  {
    if i < n {
      PlaceOrder(start, cs, i, n - 1);
    }
  }

  lemma {:induction false} PlacePlain(start: nat, cs: seq<int>, n: nat)
    requires n <= |cs| && AllPlain(cs, n)
    ensures Place(start, cs, n) == start + n
  {
    if n > 0 {
      PlacePlain(start, cs, n - 1);
    }
  }

  lemma {:induction false} PlaceOfPrefix(start: nat, cs: seq<int>, ds: seq<int>, n: nat)
    requires n <= |cs| <= |ds| && ds[..|cs|] == cs
    ensures Place(start, ds, n) == Place(start, cs, n)
  {
    if n > 0 {
      PlaceOfPrefix(start, cs, ds, n - 1);
      assert ds[n - 1] == ds[..|cs|][n - 1];
    }
  }

  /** The first `n` characters of a text stand on the screen, each at its place, unless they have left the screen. */
  ghost predicate Written(start: nat, cs: seq<int>, n: nat, cells: seq<int>, k: nat)
    requires n <= |cs|
  {
    forall i :: 0 <= i < n ==> Shows(cs[i], Place(start, cs, i), cells, k)
  }

  /** Written behind what stood there before, with the cursor behind the text. */
  ghost predicate Standing(s: Screen, cs: seq<int>, n: nat, t: Screen, k: nat)
    requires s.Valid() && n <= |cs|
  {
    && t.Valid() && t.Free() && t.Pos() == Place(s.Pos(), cs, n) - SCREEN_WIDTH * k
    && Kept(s.cells, t.cells, s.Pos(), k) && Written(s.Pos(), cs, n, t.cells, k)
  }

  lemma AdvanceShift(p: nat, c: int, k: nat)
    requires p >= SCREEN_WIDTH * k
    ensures Advance(p - SCREEN_WIDTH * k, c) == Advance(p, c) - SCREEN_WIDTH * k
  {
    assert (p - SCREEN_WIDTH * k) / SCREEN_WIDTH == p / SCREEN_WIDTH - k;
    assert (p - SCREEN_WIDTH * k) % 4 == p % 4 by {
      assert p - SCREEN_WIDTH * k == p - 4 * (20 * k);
    }
  }

  lemma ShowsShift(c: int, p: nat, cells: seq<int>, k: nat, k': nat)
    requires p >= SCREEN_WIDTH * k && Shows(c, p - SCREEN_WIDTH * k, cells, k')
    ensures Shows(c, p, cells, k + k')
  {
    AdvanceShift(p, c, k);
    hide Advance;
  }

  /** What stands in front of the limit goes on standing. */
  lemma WrittenKept(start: nat, cs: seq<int>, n: nat, a: seq<int>, b: seq<int>, limit: int, k: nat, k': nat)
    requires n <= |cs| && Written(start, cs, n, a, k) && Kept(a, b, limit, k')
    requires Place(start, cs, n) - SCREEN_WIDTH * k <= limit <= |a|
    ensures Written(start, cs, n, b, k + k')
  {
    forall i | 0 <= i < n
      ensures Shows(cs[i], Place(start, cs, i), b, k + k')
    {
      hide Kept, Filled;
      PlaceOrder(start, cs, i + 1, n);
      if cs[i] != NEWLINE {
        FilledKept(Glyph(cs[i]), Place(start, cs, i), Place(start, cs, i + 1), a, b, limit, k, k');
      }
    }
  }

  lemma StandingStarts(s: Screen, cs: seq<int>)
    requires s.Valid() && s.Free()
    ensures Standing(s, cs, 0, s, 0)
  {
  }

  /** One more character. */
  lemma StandingGrows(s: Screen, cs: seq<int>, n: nat, u: Screen, t: Screen, k: nat, k': nat)
    requires s.Valid() && n < |cs| && Standing(s, cs, n, u, k)
    requires t.Valid() && Advanced(u, cs[n], t, k')
    ensures Standing(s, cs, n + 1, t, k + k')
  {
    hide Kept, Raised, Shows, Advance, Written;
    var start, p := s.Pos(), Place(s.Pos(), cs, n);
    AdvanceShift(p, cs[n], k);
    RaisedMore(start, p, k);
    KeptNarrower(u.cells, t.cells, u.Pos(), Raised(start, k), k');
    KeptAgain(s.cells, u.cells, t.cells, start, k, k');
    WrittenKept(start, cs, n, u.cells, t.cells, u.Pos(), k, k');
    ShowsShift(cs[n], p, t.cells, k, k');
    OneMoreWritten(start, cs, n, t.cells, k + k');
  }

  lemma OneMoreWritten(start: nat, cs: seq<int>, n: nat, cells: seq<int>, k: nat)
    requires n < |cs| && Written(start, cs, n, cells, k) && Shows(cs[n], Place(start, cs, n), cells, k)
    ensures Written(start, cs, n + 1, cells, k)
  {
    hide Shows, Place;
  }

  /** The screen in front of some position holds the text, except for `k` rows that have left it. */
  ghost predicate Shown(text: seq<int>, screen: seq<int>, k: nat) {
    SCREEN_WIDTH * k <= |text| && screen == text[SCREEN_WIDTH * k..]
  }

  /** A text of plain characters stands one behind the other. */
  lemma PlainShown(start: nat, cs: seq<int>, a: seq<int>, b: seq<int>, k: nat)
    requires AllPlain(cs, |cs|) && start <= |a| == |b|
    requires Kept(a, b, start, k) && Written(start, cs, |cs|, b, k)
    requires 0 <= start + |cs| - SCREEN_WIDTH * k <= |b|
    ensures Shown(a[..start] + cs, b[..start + |cs| - SCREEN_WIDTH * k], k)
  {
    hide Kept, Written, AllPlain;
    var w := SCREEN_WIDTH * k;
    var text := a[..start] + cs;
    var screen, tail := b[..start + |cs| - w], text[w..];
    forall i | 0 <= i < |screen|
      ensures screen[i] == tail[i]
    {
      PlainCell(start, cs, a, b, k, i);
    }
  }

  lemma PlainCell(start: nat, cs: seq<int>, a: seq<int>, b: seq<int>, k: nat, i: nat)
    requires AllPlain(cs, |cs|) && start <= |a| == |b|
    requires Kept(a, b, start, k) && Written(start, cs, |cs|, b, k)
    requires i < |b| && i + SCREEN_WIDTH * k < start + |cs|
    ensures b[i] == (a[..start] + cs)[i + SCREEN_WIDTH * k]
  {
    hide Kept, Written, AllPlain;
    var j := i + SCREEN_WIDTH * k;
    if j < start {
      KeptCell(a, b, start, k, j);
    } else {
      PlainAt(start, cs, j - start, b, k);
    }
  }

  lemma PlainStands(s: Screen, cs: seq<int>, t: Screen, k: nat)
    requires s.Valid() && AllPlain(cs, |cs|) && Standing(s, cs, |cs|, t, k)
    ensures t.Pos() == s.Pos() + |cs| - SCREEN_WIDTH * k
    ensures Shown(s.cells[..s.Pos()] + cs, t.cells[..t.Pos()], k)
  {
    hide Kept, Written, AllPlain, Shown;
    PlacePlain(s.Pos(), cs, |cs|);
    PlainShown(s.Pos(), cs, s.cells, t.cells, k);
  }

  lemma PlainAt(start: nat, cs: seq<int>, n: nat, cells: seq<int>, k: nat)
    requires AllPlain(cs, |cs|) && n < |cs| && Written(start, cs, |cs|, cells, k)
    requires 0 <= start + n - SCREEN_WIDTH * k < |cells|
    ensures cells[start + n - SCREEN_WIDTH * k] == cs[n]
  {
    PlacePlain(start, cs, n);
    assert Shows(cs[n], Place(start, cs, n), cells, k);
  }

  // ---- typing ----

  /** Rows by which the screen moves from step `i` to step `j`. */
  function Rows(moved: seq<nat>, i: nat, j: nat): nat
    requires i <= j <= |moved|
    decreases j
  {
    if i == j then 0 else Rows(moved, i, j - 1) + moved[j - 1]
  }

  lemma {:induction false} RowsSplit(moved: seq<nat>, i: nat, m: nat, j: nat)
    requires i <= m <= j <= |moved|
    ensures Rows(moved, i, j) == Rows(moved, i, m) + Rows(moved, m, j)
    decreases j
  {
    if m < j {
      RowsSplit(moved, i, m, j - 1);
    }
  }

  lemma {:induction false} RowsOfPrefix(moved: seq<nat>, more: seq<nat>, j: nat)
    requires j <= |moved| <= |more| && more[..|moved|] == moved
    ensures Rows(more, 0, j) == Rows(moved, 0, j)
  {
    if j > 0 {
      RowsOfPrefix(moved, more, j - 1);
      assert more[j - 1] == more[..|moved|][j - 1];
    }
  }

  /** Characters were put one after the other, as far as the trace goes. */
  ghost predicate Typing(cs: seq<int>, trace: seq<Screen>, moved: seq<nat>) {
    && |trace| == |moved| + 1 <= |cs| + 1
    && (forall n :: 0 <= n < |trace| ==> trace[n].Valid())
    && (forall n :: 0 <= n < |moved| ==> Typed(trace[n], cs[n], trace[n + 1], moved[n]))
  }

  lemma TypingStarts(cs: seq<int>, s: Screen)
    requires s.Valid()
    ensures Typing(cs, [s], [])
  {
  }

  lemma TypingGrows(cs: seq<int>, trace: seq<Screen>, moved: seq<nat>, t: Screen, k: nat)
    requires Typing(cs, trace, moved) && |moved| < |cs|
    requires trace[|moved|].Valid() && Typed(trace[|moved|], cs[|moved|], t, k)
    ensures Typing(cs, trace + [t], moved + [k])
  {
    assert t.Valid();
    hide Typed, Screen.Valid;
    var trace', moved', last := trace + [t], moved + [k], |moved|;
    assert trace'[last] == trace[last] && trace'[last + 1] == t && moved'[last] == k;
    forall n | 0 <= n < |trace'|
      ensures trace'[n].Valid()
    {
      assert n <= last ==> trace'[n] == trace[n];
    }
    forall n | 0 <= n < |moved'|
      ensures Typed(trace'[n], cs[n], trace'[n + 1], moved'[n])
    {
      assert n < last ==> trace'[n] == trace[n] && trace'[n + 1] == trace[n + 1] && moved'[n] == moved[n];
    }
  }

  lemma TypingStep(cs: seq<int>, trace: seq<Screen>, moved: seq<nat>, n: nat)
    requires Typing(cs, trace, moved) && n < |moved|
    ensures |trace| == |moved| + 1 <= |cs| + 1
    ensures trace[n].Valid() && trace[n + 1].Valid() && Typed(trace[n], cs[n], trace[n + 1], moved[n]) && moved[n] <= 1
  {
  }

  lemma TypingValid(cs: seq<int>, trace: seq<Screen>, moved: seq<nat>, n: nat)
    requires Typing(cs, trace, moved) && n <= |moved|
    ensures |trace| == |moved| + 1 <= |cs| + 1 && trace[n].Valid()
  {
  }

  /** No sequence of characters and keys changes what is in front of the output position. */
  lemma {:induction false} TypingKeeps(cs: seq<int>, trace: seq<Screen>, moved: seq<nat>, n: nat)
    requires Typing(cs, trace, moved) && n <= |moved|
    ensures Rows(moved, 0, n) <= n && trace[n].Out() == Raised(trace[0].Out(), Rows(moved, 0, n))
    ensures Kept(trace[0].cells, trace[n].cells, trace[0].Out(), Rows(moved, 0, n))
  {
    hide Typing, Kept, Raised, Advanced, Aimed, Deleted, Forward, CursorKey, NextToText;
    TypingValid(cs, trace, moved, 0);
    if n == 0 {
      KeptSame(trace[0].cells, trace[0].Out());
    } else {
      TypingKeeps(cs, trace, moved, n - 1);
      TypingStep(cs, trace, moved, n - 1);
      KeptAgain(trace[0].cells, trace[n - 1].cells, trace[n].cells, trace[0].Out(), Rows(moved, 0, n - 1), moved[n - 1]);
    }
  }

  /** A text that never takes the cursor back stands where it was put, behind what stood there before. */
  lemma {:induction false} TypingStands(cs: seq<int>, trace: seq<Screen>, moved: seq<nat>, n: nat)
    requires Typing(cs, trace, moved) && n <= |moved| && AllForward(cs, n)
    requires trace[0].Valid() && trace[0].Free()
    ensures Standing(trace[0], cs, n, trace[n], Rows(moved, 0, n))
  {
    hide Typing, Standing, Advanced, Aimed, Deleted, Forward, CursorKey, Kept, Raised, NextToText;
    TypingValid(cs, trace, moved, n);
    if n == 0 {
      StandingStarts(trace[0], cs);
    } else {
      TypingStands(cs, trace, moved, n - 1);
      TypingStep(cs, trace, moved, n - 1);
      StandingFree(trace[0], cs, n - 1, trace[n - 1], Rows(moved, 0, n - 1));
      StandingGrows(trace[0], cs, n - 1, trace[n - 1], trace[n], Rows(moved, 0, n - 1), moved[n - 1]);
    }
  }

  lemma StandingFree(s: Screen, cs: seq<int>, n: nat, t: Screen, k: nat)
    requires s.Valid() && n <= |cs| && Standing(s, cs, n, t, k)
    ensures t.Valid() && t.Free() && t.Pos() == Place(s.Pos(), cs, n) - SCREEN_WIDTH * k
    ensures Kept(s.cells, t.cells, s.Pos(), k) && Written(s.Pos(), cs, n, t.cells, k)
  {
  }

  // ---- printing ----

  ghost predicate PrintedBy(s: Screen, text: seq<int>, t: Screen, k: nat, trace: seq<Screen>, moved: seq<nat>) {
    && Typing(text, trace, moved) && |moved| == |text| && trace[0] == s
    && t == trace[|text|].AfterPrint() && k == Rows(moved, 0, |text|)
  }

  /** `writef` for a text whose conversions have been made takes screen `s` to `t`, which is `k` rows higher. */
  ghost predicate Printed(s: Screen, text: seq<int>, t: Screen, k: nat) {
    exists trace, moved :: PrintedBy(s, text, t, k, trace, moved)
  }

  lemma OutMoves(s: Screen)
    requires s.Valid()
    ensures s.AfterPrint().Valid() && s.AfterPrint().Out() >= s.Out()
    ensures s.Free() ==> s.AfterPrint().Free() && s.AfterPrint().Out() == s.Pos() == s.AfterPrint().Pos()
    ensures s.AfterScan().Valid() && s.AfterScan().Free() && s.AfterScan().Out() == s.Pos() == s.AfterScan().Pos()
    ensures s.Free() <==> s.Pos() >= s.Out()
  {
  }

  /** What was printed before stays, and the output position does not go back. */
  lemma PrintKeeps(s: Screen, text: seq<int>, t: Screen, k: nat)
    requires Printed(s, text, t, k)
    ensures s.Valid() && t.Valid() && k <= |text|
    ensures t.Out() >= Raised(s.Out(), k) && Kept(s.cells, t.cells, s.Out(), k)
  {
    hide Typing, Kept, Raised;
    var trace, moved :| PrintedBy(s, text, t, k, trace, moved);
    TypingValid(text, trace, moved, 0);
    TypingValid(text, trace, moved, |text|);
    TypingKeeps(text, trace, moved, |text|);
    OutMoves(trace[|text|]);
  }

  /** A text that never takes the cursor back ends up in front of the output position, character by character. */
  lemma PrintStands(s: Screen, text: seq<int>, t: Screen, k: nat)
    requires Printed(s, text, t, k) && s.Valid() && s.Free() && AllForward(text, |text|)
    ensures Standing(s, text, |text|, t, k) && t.Out() == t.Pos()
  {
    hide Typing, Standing;
    var trace, moved :| PrintedBy(s, text, t, k, trace, moved);
    TypingValid(text, trace, moved, |text|);
    TypingStands(text, trace, moved, |text|);
    StandingFree(s, text, |text|, trace[|text|], k);
    OutMoves(trace[|text|]);
    StandingSame(s, text, |text|, trace[|text|], t, k);
  }

  lemma StandingSame(s: Screen, cs: seq<int>, n: nat, t: Screen, t': Screen, k: nat)
    requires s.Valid() && n <= |cs| && Standing(s, cs, n, t, k)
    requires t'.Valid() && t'.Free() && t'.Pos() == t.Pos() && t'.cells == t.cells
    ensures Standing(s, cs, n, t', k)
  {
  }

  /** A carriage return comes to stand at the start of its row. */
  lemma ReturnLands(u: Screen, v: Screen, k: nat)
    requires u.Valid() && Typed(u, RETURN, v, k)
    ensures k == 0 && v.x == 0 && v.y == u.y && v.cells == u.cells && v.outX == u.outX && v.outY == u.outY
  {
  }

  /** A line feed comes to stand at the start of the next row, or of the last one. */
  lemma NewlineLands(u: Screen, v: Screen, k: nat)
    requires u.Valid() && Typed(u, NEWLINE, v, k)
    ensures v.x == 0 && v.y == u.y + 1 - k && v.Out() == Raised(u.Out(), k) && (k == 1 <==> u.y == SCREEN_HEIGHT - 1)
    ensures k == 0 ==> v.cells == u.cells
  {
  }

  lemma UpLands(u: Screen, v: Screen, k: nat)
    requires u.Valid() && Typed(u, KEY_UP, v, k) && u.y > 0
    ensures k == 0 && v.y == u.y - 1 && v.cells == u.cells && v.Out() == u.Out()
  {
    hide Kept, NextToText, EmptyUpTo;
  }

  lemma RightLands(u: Screen, v: Screen, k: nat)
    requires u.Valid() && Typed(u, KEY_RIGHT, v, k) && u.cells[u.Pos()] != 0 && u.x + 1 < SCREEN_WIDTH
    ensures k == 0 && v.x == u.x + 1 && v.y == u.y && v.cells == u.cells && v.Out() == u.Out()
  {
    hide Kept, NextToText;
  }

  lemma BackspaceErases(u: Screen, v: Screen, k: nat)
    requires u.Valid() && Typed(u, KEY_BACKSPACE, v, k) && u.Pos() > u.Out()
    ensures Erased(u.cells, v.cells, u.Pos() - 1)
  {
    hide Kept, NextToText, Erased;
  }

  lemma ForwardPrefix(cs: seq<int>, p: seq<int>)
    requires |p| <= |cs| && cs[..|p|] == p && AllForward(p, |p|)
    ensures AllForward(cs, |p|)
  {
    forall i | 0 <= i < |p|
      ensures Forward(cs[i])
    {
      assert cs[i] == cs[..|p|][i];
    }
  }

  lemma OutInFront(out: int, start: int, place: int, k: nat)
    requires 0 <= out <= start < place
    ensures place - SCREEN_WIDTH * k > 0 ==> Raised(out, k) < place - SCREEN_WIDTH * k
  {
  }

  /** The screen where a text that never takes the cursor back ends and more follows. */
  lemma BeforeEnd(text: seq<int>, p: seq<int>, trace: seq<Screen>, moved: seq<nat>)
    requires Typing(text, trace, moved) && |p| <= |moved| && text[..|p|] == p && p != [] && AllForward(p, |p|)
    requires trace[0].Valid() && trace[0].Free()
    ensures var u, k := trace[|p|], Rows(moved, 0, |p|);
      && u.Valid() && u.Free() && u.Pos() == Place(trace[0].Pos(), p, |p|) - SCREEN_WIDTH * k
      && (u.Pos() > 0 ==> u.Out() < u.Pos())
  {
    TypingValid(text, trace, moved, |p|);
    OutMoves(trace[0]);
    hide *;
    ForwardPrefix(text, p);
    TypingStands(text, trace, moved, |p|);
    StandingFree(trace[0], text, |p|, trace[|p|], Rows(moved, 0, |p|));
    PlaceOfPrefix(trace[0].Pos(), p, text, |p|);
    TypingKeeps(text, trace, moved, |p|);
    OutInFront(trace[0].Out(), trace[0].Pos(), Place(trace[0].Pos(), p, |p|), Rows(moved, 0, |p|));
  }

  /**
    A text that ends in a carriage return: all of it lies in front of the output position exactly if the return came
    at the start of a row, behind a line that filled the one above or ended in a line feed.
   */
  lemma ReturnCoversIff(s: Screen, p: seq<int>, t: Screen, k: nat)
    requires Printed(s, p + [RETURN], t, k) && s.Valid() && s.Free() && p != [] && AllForward(p, |p|)
    ensures t.Out() >= Place(s.Pos(), p, |p|) - SCREEN_WIDTH * k <==> Place(s.Pos(), p, |p|) % SCREEN_WIDTH == 0
  {
    hide Typing, Place, AllForward, Typed;
    var text := p + [RETURN];
    var trace, moved :| PrintedBy(s, text, t, k, trace, moved);
    TypingStep(text, trace, moved, |p|);
    BeforeEnd(text, p, trace, moved);
    ReturnLands(trace[|p|], trace[|p| + 1], moved[|p|]);
    assert k == Rows(moved, 0, |p|) + moved[|p|];
    StartOfRow(trace[|p|], Place(s.Pos(), p, |p|), k);
  }

  lemma StartOfRow(u: Screen, place: nat, k: nat)
    requires u.Valid() && u.Pos() == place - SCREEN_WIDTH * k
    ensures u.x == 0 <==> place % SCREEN_WIDTH == 0
  {
    assert place == SCREEN_WIDTH * (u.y + k) + u.x;
  }

  /** A carriage return in front of the last line feed does no harm. */
  lemma ReturnLineCovers(s: Screen, p: seq<int>, t: Screen, k: nat)
    requires Printed(s, p + [RETURN, NEWLINE], t, k) && s.Valid() && s.Free() && p != [] && AllForward(p, |p|)
    ensures t.Out() == t.Pos() >= Place(s.Pos(), p, |p|) - SCREEN_WIDTH * k
  {
    hide Typing, Place, AllForward, Typed, Raised, Screen.AfterPrint;
    var text := p + [RETURN, NEWLINE];
    var trace, moved :| PrintedBy(s, text, t, k, trace, moved);
    TypingStep(text, trace, moved, |p|);
    BeforeEnd(text, p, trace, moved);
    TypingStep(text, trace, moved, |p| + 1);
    LineEnds(trace[|p|], trace[|p| + 1], trace[|p| + 2], moved[|p|], moved[|p| + 1]);
    assert k == Rows(moved, 0, |p| + 1) + moved[|p| + 1];
    assert Rows(moved, 0, |p| + 1) == Rows(moved, 0, |p|) + moved[|p|];
  }

  /** A carriage return and a line feed end a line, and the output position follows. */
  lemma LineEnds(u: Screen, v: Screen, w: Screen, k: nat, k': nat)
    requires u.Valid() && u.Free() && Typed(u, RETURN, v, k) && v.Valid() && Typed(v, NEWLINE, w, k')
    requires w.Valid()
    ensures k == 0 && w.AfterPrint().Out() == w.AfterPrint().Pos() >= u.Pos() - SCREEN_WIDTH * k'
  {
    hide Typed;
    ReturnLands(u, v, k);
    NewlineLands(v, w, k');
  }

  // ---- sessions ----

  /** The kernel prints, somebody presses a key, or a scan ends, whose line feed was a key before. */
  datatype Event = Print(text: seq<int>) | Key(c: int) | ScanEnds

  ghost predicate Happened(s: Screen, e: Event, t: Screen, k: nat)
    requires s.Valid()
  {
    match e
    case Print(text) => Printed(s, text, t, k)
    case Key(c) => Typed(s, c, t, k)
    case ScanEnds => t == s.AfterScan() && k == 0
  }

  ghost predicate IsSession(events: seq<Event>, trace: seq<Screen>, moved: seq<nat>) {
    && |trace| == |moved| + 1 <= |events| + 1
    && (forall n :: 0 <= n < |trace| ==> trace[n].Valid())
    && (forall n :: 0 <= n < |moved| ==> Happened(trace[n], events[n], trace[n + 1], moved[n]))
  }

  lemma SessionStarts(events: seq<Event>, s: Screen)
    requires s.Valid()
    ensures IsSession(events, [s], [])
  {
  }

  lemma SessionGrows(events: seq<Event>, trace: seq<Screen>, moved: seq<nat>, t: Screen, k: nat)
    requires IsSession(events, trace, moved) && |moved| < |events| && t.Valid()
    requires trace[|moved|].Valid() && Happened(trace[|moved|], events[|moved|], t, k)
    ensures IsSession(events, trace + [t], moved + [k])
  {
    hide Happened, Screen.Valid;
    var trace', moved', last := trace + [t], moved + [k], |moved|;
    assert trace'[last] == trace[last] && trace'[last + 1] == t && moved'[last] == k;
    forall n | 0 <= n < |trace'|
      ensures trace'[n].Valid()
    {
      assert n <= last ==> trace'[n] == trace[n];
    }
    forall n | 0 <= n < |moved'|
      ensures Happened(trace'[n], events[n], trace'[n + 1], moved'[n])
    {
      assert n < last ==> trace'[n] == trace[n] && trace'[n + 1] == trace[n + 1] && moved'[n] == moved[n];
    }
  }

  lemma SessionStep(events: seq<Event>, trace: seq<Screen>, moved: seq<nat>, n: nat)
    requires IsSession(events, trace, moved) && n < |moved|
    ensures |trace| == |moved| + 1 <= |events| + 1
    ensures trace[n].Valid() && trace[n + 1].Valid() && Happened(trace[n], events[n], trace[n + 1], moved[n])
  {
  }

  /** Every scan from event `i` up to event `j` ends with the cursor at or behind the output position. */
  ghost predicate ScansFree(events: seq<Event>, trace: seq<Screen>, i: nat, j: nat)
    requires j <= |events| && j < |trace|
  {
    forall n :: i <= n < j && events[n].ScanEnds? ==> trace[n].Free()
  }

  /** One event keeps what is in front of the output position, and does not take that back, but for a scan. */
  lemma EventKeeps(s: Screen, e: Event, t: Screen, k: nat)
    requires s.Valid() && Happened(s, e, t, k)
    ensures t.Valid() && Kept(s.cells, t.cells, s.Out(), k)
    ensures e.ScanEnds? ==> (t.Out() >= Raised(s.Out(), k) <==> s.Free())
    ensures !e.ScanEnds? ==> t.Out() >= Raised(s.Out(), k)
  {
    hide Kept, Printed, Advanced, Aimed, Deleted;
    match e
    case Print(text) => PrintKeeps(s, text, t, k);
    case Key(c) =>
    case ScanEnds =>
      OutMoves(s);
      KeptSame(s.cells, s.Out());
  }

  lemma ScansFreeStep(events: seq<Event>, trace: seq<Screen>, i: nat, j: nat)
    requires i < j <= |events| && j < |trace| && ScansFree(events, trace, i, j)
    ensures ScansFree(events, trace, i, j - 1) && ScansFree(events, trace, i + 1, j)
    ensures events[j - 1].ScanEnds? ==> trace[j - 1].Free()
  {
  }

  lemma SessionValid(events: seq<Event>, trace: seq<Screen>, moved: seq<nat>, n: nat)
    requires IsSession(events, trace, moved) && n <= |moved|
    ensures |trace| == |moved| + 1 <= |events| + 1 && trace[n].Valid() && trace[n].Out() >= 0
  {
  }

  /** In every session what lies in front of the output position stays, as long as every scan ends with a free cursor. */
  lemma {:induction false} SessionKeeps(events: seq<Event>, trace: seq<Screen>, moved: seq<nat>, i: nat, j: nat)
    requires IsSession(events, trace, moved) && i <= j <= |moved| && ScansFree(events, trace, i, j)
    ensures trace[i].Valid() && trace[j].Out() >= Raised(trace[i].Out(), Rows(moved, i, j))
    ensures Kept(trace[i].cells, trace[j].cells, trace[i].Out(), Rows(moved, i, j))
    decreases j
  {
    hide *;
    SessionValid(events, trace, moved, i);
    if i == j {
      NoRows(moved, i);
      KeptSame(trace[i].cells, trace[i].Out());
    } else {
      ScansFreeStep(events, trace, i, j);
      SessionKeeps(events, trace, moved, i, j - 1);
      SessionStep(events, trace, moved, j - 1);
      EventKeeps(trace[j - 1], events[j - 1], trace[j], moved[j - 1]);
      KeepsOn(trace[i], trace[j - 1], trace[j], Rows(moved, i, j - 1), moved[j - 1]);
      OneMoreRow(moved, i, j);
    }
  }

  lemma NoRows(moved: seq<nat>, i: nat)
    requires i <= |moved|
    ensures Rows(moved, i, i) == 0
    ensures i < |moved| ==> Rows(moved, i, i + 1) == moved[i]
  {
  }

  lemma OneMoreRow(moved: seq<nat>, i: nat, j: nat)
    requires i < j <= |moved|
    ensures Rows(moved, i, j) == Rows(moved, i, j - 1) + moved[j - 1]
  {
  }

  lemma KeepsOn(s: Screen, u: Screen, t: Screen, k: nat, k': nat)
    requires s.Valid() && u.Valid() && t.Valid()
    requires Kept(s.cells, u.cells, s.Out(), k) && u.Out() >= Raised(s.Out(), k)
    requires Kept(u.cells, t.cells, u.Out(), k') && t.Out() >= Raised(u.Out(), k')
    ensures Kept(s.cells, t.cells, s.Out(), k + k') && t.Out() >= Raised(s.Out(), k + k')
  {
    hide Kept;
    KeptNarrower(u.cells, t.cells, u.Out(), Raised(s.Out(), k), k');
    KeptAgain(s.cells, u.cells, t.cells, s.Out(), k, k');
    RaisedMore(Raised(s.Out(), k), u.Out(), k');
  }

  /**
    Printed text cannot be removed: in every session a text printed by event `i` still stands before event `j`, each
    character at its place, unless it has left the screen at the top, as long as every scan ends with a free cursor.
   */
  lemma PrintStays(events: seq<Event>, trace: seq<Screen>, moved: seq<nat>, i: nat, j: nat)
    requires IsSession(events, trace, moved) && i < j <= |moved| && ScansFree(events, trace, i, j)
    requires events[i].Print? && AllForward(events[i].text, |events[i].text|)
    requires trace[i].Valid() && trace[i].Free()
    ensures var text, start, k := events[i].text, trace[i].Pos(), Rows(moved, i, j);
      && Written(start, text, |text|, trace[j].cells, k) && Kept(trace[i].cells, trace[j].cells, start, k)
      && trace[j].Out() >= Raised(Place(start, text, |text|), k)
  {
    hide *;
    SessionValid(events, trace, moved, j);
    SessionStep(events, trace, moved, i);
    var text, s, u, t := events[i].text, trace[i], trace[i + 1], trace[j];
    var k, k' := Rows(moved, i, i + 1), Rows(moved, i + 1, j);
    NoRows(moved, i);
    WasPrinted(s, events[i], u, k);
    PrintStands(s, text, u, k);
    StandingFree(s, text, |text|, u, k);
    ScansFreeStep(events, trace, i, j);
    SessionKeeps(events, trace, moved, i + 1, j);
    RowsSplit(moved, i, i + 1, j);
    StaysWritten(s, text, u, t, k, k');
  }

  lemma WasPrinted(s: Screen, e: Event, t: Screen, k: nat)
    requires s.Valid() && e.Print? && Happened(s, e, t, k)
    ensures Printed(s, e.text, t, k)
  {
  }

  lemma StaysWritten(s: Screen, text: seq<int>, u: Screen, t: Screen, k: nat, k': nat)
    requires s.Valid() && u.Valid() && u.Out() == u.Pos() == Place(s.Pos(), text, |text|) - SCREEN_WIDTH * k
    requires Kept(s.cells, u.cells, s.Pos(), k) && Written(s.Pos(), text, |text|, u.cells, k)
    requires Kept(u.cells, t.cells, u.Out(), k') && t.Out() >= Raised(u.Out(), k')
    ensures Written(s.Pos(), text, |text|, t.cells, k + k') && Kept(s.cells, t.cells, s.Pos(), k + k')
    ensures t.Out() >= Raised(Place(s.Pos(), text, |text|), k + k')
  {
    hide Kept, Written;
    var start, end := s.Pos(), Place(s.Pos(), text, |text|);
    WrittenKept(start, text, |text|, u.cells, t.cells, u.Out(), k, k');
    RaisedMore(start, end, k);
    KeptNarrower(u.cells, t.cells, u.Out(), Raised(start, k), k');
    KeptAgain(s.cells, u.cells, t.cells, start, k, k');
  }

  /** A printed text after keys that took the screen from `u` to `t`. */
  lemma StaysAfterKeys(s: Screen, text: seq<int>, u: Screen, t: Screen, k: nat, k': nat)
    requires Printed(s, text, u, k) && s.Valid() && s.Free() && AllForward(text, |text|) && t.Valid()
    requires Kept(u.cells, t.cells, u.Out(), k') && t.Out() == Raised(u.Out(), k')
    ensures t.Out() == Raised(Place(s.Pos(), text, |text|), k + k')
    ensures Written(s.Pos(), text, |text|, t.cells, k + k') && Kept(s.cells, t.cells, s.Pos(), k + k')
    ensures AllPlain(text, |text|) && SCREEN_WIDTH * (k + k') <= s.Pos() + |text| ==>
      Shown(s.cells[..s.Pos()] + text, t.cells[..t.Out()], k + k')
  {
    hide Kept, Written, Printed, Standing, AllForward, AllPlain, Shown, Place;
    PrintStands(s, text, u, k);
    StandingFree(s, text, |text|, u, k);
    StaysWritten(s, text, u, t, k, k');
    if AllPlain(text, |text|) && SCREEN_WIDTH * (k + k') <= s.Pos() + |text| {
      PlacePlain(s.Pos(), text, |text|);
      PlainShown(s.Pos(), text, s.cells, t.cells, k + k');
    }
  }

  /**
    The condition is exact: after a scan that ends at screen `s`, the next plain key overwrites something in front of
    the old output position exactly if the cursor was not free, whatever the key, unless the cell holds it already.
   */
  lemma ScanLosesIff(s: Screen, c: int, t: Screen, k: nat)
    requires s.Valid() && Plain(c) && s.cells[s.Pos()] != c && s.AfterScan().Valid() && Typed(s.AfterScan(), c, t, k)
    ensures Kept(s.cells, t.cells, s.Out(), k) <==> s.Free()
  {
    hide Kept, NextToText, Aimed, Deleted;
    OutMoves(s);
    var pos := s.Pos();
    if s.Free() {
      KeptNarrower(s.cells, t.cells, pos, s.Out(), k);
    } else {
      assert k == 0;
      if Kept(s.cells, t.cells, s.Out(), 0) {
        KeptAt(s.cells, t.cells, pos, s.Out(), c);
        assert false;
      }
    }
  }

  lemma KeptAt(a: seq<int>, b: seq<int>, pos: nat, limit: int, c: int)
    requires pos < limit <= |a| && Kept(a, b, limit, 0) && Filled(c, pos, pos + 1, b, 0)
    ensures a[pos] == c
  {
    assert b[pos - SCREEN_WIDTH * 0] == a[pos];
  }

  /** A scan that ends by a line feed at screen `s`: the cursor is then free unless it was too far up. */
  lemma EnterLeavesFree(s: Screen, t: Screen, k: nat)
    requires s.Valid() && Typed(s, NEWLINE, t, k)
    ensures t.Free() <==> s.y >= s.outY || (s.y + 1 == s.outY && s.outX == 0)
  {
    hide Kept, Advanced, NextToText, EmptyUpTo;
    NewlineLands(s, t, k);
  }
}
