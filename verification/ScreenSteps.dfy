// What each operation does to a screen, said of its lines and cursor before and
// after it.
module ScreenSteps {
  import opened Common
  import opened GridLines
  import opened GridView
  import opened ScreenModel
  import opened ScreenHistory
  import P = ScreenPadding

  predicate SameCursor(r: Screen, s: Screen) {
    r.cx == s.cx && r.cy == s.cy
  }

  predicate SameRegion(r: Screen, s: Screen) {
    r.rupper == s.rupper && r.rlower == s.rlower
  }

  // ----- Scrolling

  /** The history with one more line: a tenth of the limit, but at least one
      line, goes first when it is full; one of limit 0 stays empty. */
  predicate GainsLine(r: seq<Line>, h: seq<Line>, l: Line, hlimit: nat) {
    if |h| < hlimit then r == h + [l]
    else if h == [] then r == []
    else Max(1, hlimit / 10) <= |h| && r == h[Max(1, hlimit / 10)..] + [l]
  }

  /** The lines of the region one up, the last of them blank; the first goes to
      the history if it is on. */
  predicate FeedLaw(s: Screen, screen: seq<Line>, r: Screen)
    requires Valid(s) && |screen| == Height(s)
  {
    && Height(r) == Height(s)
    && (forall y :: 0 <= y < Height(s) ==> FeedRow(s, screen, r, y))
    && if s.historyOn then GainsLine(r.v.history, s.v.history, screen[s.rupper], s.hlimit)
       else r.v.history == s.v.history
  }

  predicate FeedRow(s: Screen, screen: seq<Line>, r: Screen, y: nat)
    requires Valid(s) && |screen| == Height(s) == Height(r) && y < Height(s)
  {
    r.v.screen[y] == if s.rupper <= y < s.rlower then screen[y + 1]
                     else if y == s.rlower && (s.historyOn || s.rupper < s.rlower) then BLANK
                     else screen[y]
  }

  /** The line is marked. At the end of the region that scrolls; elsewhere the
      cursor goes down, but not off the screen. */
  predicate LinefeedLaw(s: Screen, wrapped: bool, r: Screen)
    requires Valid(s)
  {
    var screen := s.v.screen[s.cy := s.v.screen[s.cy].(wrapped := wrapped)];
    && r.cx == s.cx && SameRegion(r, s)
    && r.cy == (if s.cy != s.rlower && s.cy + 1 < Height(s) then s.cy + 1 else s.cy)
    && if s.cy == s.rlower then FeedLaw(s, screen, r) else r.v == View(s.v.history, screen)
  }

  /** At the top of the region that scrolls down; elsewhere the cursor goes up,
      but not off the screen. */
  predicate ReverseLaw(s: Screen, r: Screen)
    requires Valid(s)
  {
    && r.cx == s.cx && SameRegion(r, s) && r.v.history == s.v.history && Height(r) == Height(s)
    && r.cy == (if s.cy != s.rupper && s.cy > 0 then s.cy - 1 else s.cy)
    && forall y :: 0 <= y < Height(s) ==>
         r.v.screen[y] == if s.cy == s.rupper && s.rupper < y <= s.rlower then s.v.screen[y - 1]
                          else if s.cy == y == s.rupper < s.rlower then BLANK
                          else s.v.screen[y]
  }

  lemma RecordedGains(h: seq<Line>, l: Line, hlimit: nat)
    ensures GainsLine(Recorded(h, l, hlimit), h, l, hlimit)
  {
    if hlimit >= 1 || h != [] { TrimmedIs(h, hlimit); }
  }

  lemma ScrollObeys(s: Screen)
    requires Valid(s) && (s.historyOn ==> CanScroll(s.v, s.rupper, s.rlower, s.hlimit))
    ensures FeedLaw(s, s.v.screen, ScrollUp(s))
  {
    hide RegionUp, Recorded, GainsLine;
    RecordedGains(s.v.history, s.v.screen[s.rupper], s.hlimit);
    forall y | 0 <= y < Height(s) ensures FeedRow(s, s.v.screen, ScrollUp(s), y) {
      RegionUpAt(s.v.screen, s.rupper, s.rlower, y);
    }
  }

  lemma SameFeed(s: Screen, t: Screen, r: Screen)
    requires Valid(s) && Valid(t) && t == s.(v := View(s.v.history, t.v.screen)) && Height(t) == Height(s)
    requires FeedLaw(t, t.v.screen, r)
    ensures FeedLaw(s, t.v.screen, r)
  {
    hide GainsLine;
    forall y | 0 <= y < Height(s) ensures FeedRow(s, t.v.screen, r, y) { assert FeedRow(t, t.v.screen, r, y); }
  }

  lemma LinefeedObeys(s: Screen, wrapped: bool)
    requires Valid(s) && Enabled(s, Linefeed(wrapped))
    ensures LinefeedLaw(s, wrapped, Step(s, Linefeed(wrapped)))
  {
    hide ScrollUp, FeedLaw;
    if s.cy == s.rlower {
      var t := SetLine(s, s.v.screen[s.cy].(wrapped := wrapped));
      ScrollObeys(t);
      SameFeed(s, t, ScrollUp(t));
      ScrollKeeps(t);
    }
  }

  lemma ScrollKeeps(s: Screen)
    requires Valid(s) && (s.historyOn ==> CanScroll(s.v, s.rupper, s.rlower, s.hlimit))
    ensures SameCursor(ScrollUp(s), s) && SameRegion(ScrollUp(s), s)
  {}

  lemma ReverseObeys(s: Screen)
    requires Valid(s)
    ensures ReverseLaw(s, Step(s, ReverseIndex))
  {}

  // ----- Lines

  /** Lines move up to the end of the region, or of the screen from outside it. */
  function MoveEnd(s: Screen): nat
    requires Valid(s)
  {
    if s.rupper <= s.cy <= s.rlower then s.rlower + 1 else Height(s)
  }

  predicate SameButLines(s: Screen, r: Screen) {
    SameCursor(r, s) && SameRegion(r, s) && r.v.history == s.v.history && Height(r) == Height(s)
  }

  /** The cursor's line and those below it move down by n lines, or what there is
      room for, and blank lines come in. Outside the region the lines of the gap
      that do not move themselves stay. */
  predicate InsertLaw(s: Screen, n: UInt, r: Screen)
    requires Valid(s)
  {
    SameButLines(s, r) && forall y :: 0 <= y < Height(s) ==> InsertRow(s, n, r, y)
  }

  predicate InsertRow(s: Screen, n: UInt, r: Screen, y: nat)
    requires Valid(s) && Height(r) == Height(s) && y < Height(s)
  {
    var end := MoveEnd(s);
    var m := Min(Max(1, n), end - s.cy);
    r.v.screen[y] == if y < s.cy || y >= end then s.v.screen[y]
                     else if y >= s.cy + m then s.v.screen[y - m]
                     else if s.rupper <= s.cy <= s.rlower || y < end - m then BLANK
                     else s.v.screen[y]
  }

  predicate DeleteLaw(s: Screen, n: UInt, r: Screen)
    requires Valid(s)
  {
    SameButLines(s, r) && forall y :: 0 <= y < Height(s) ==> DeleteRow(s, n, r, y)
  }

  predicate DeleteRow(s: Screen, n: UInt, r: Screen, y: nat)
    requires Valid(s) && Height(r) == Height(s) && y < Height(s)
  {
    var end := MoveEnd(s);
    var m := Min(Max(1, n), end - s.cy);
    r.v.screen[y] == if y < s.cy || y >= end then s.v.screen[y]
                     else if y + m < end then s.v.screen[y + m]
                     else BLANK
  }

  lemma InsertedAt(screen: seq<Line>, lower: nat, py: nat, n: nat, y: nat)
    requires py + n <= lower + 1 <= |screen| && y < |screen|
    ensures InsertedLines(screen, lower, py, n)[y] ==
            if y < py || y > lower then screen[y] else if y >= py + n then screen[y - n] else BLANK
  {}

  lemma OpenedAt(screen: seq<Line>, py: nat, n: nat, y: nat)
    requires py + n <= |screen| && y < |screen|
    ensures |OpenedLines(screen, py, n)| == |screen|
    ensures OpenedLines(screen, py, n)[y] ==
            if y < py then screen[y] else if y >= py + n then screen[y - n]
            else if y < |screen| - n then BLANK else screen[y]
  {}

  lemma DeletedAt(screen: seq<Line>, lower: nat, py: nat, n: nat, y: nat)
    requires py + n <= lower + 1 <= |screen| && y < |screen|
    ensures DeletedLines(screen, lower, py, n)[y] ==
            if y < py || y > lower then screen[y] else if y + n <= lower then screen[y + n] else BLANK
  {}

  lemma InsertObeys(s: Screen, n: UInt)
    requires Valid(s)
    ensures InsertLaw(s, n, Step(s, InsertLine(n)))
  {
    hide InsertedLines, OpenedLines;
    forall y | 0 <= y < Height(s) ensures InsertRow(s, n, Step(s, InsertLine(n)), y) {
      if InRegion(s) {
        InsertedAt(s.v.screen, s.rlower, s.cy, Min(Max(1, n), s.rlower + 1 - s.cy), y);
      } else {
        OpenedAt(s.v.screen, s.cy, Min(Max(1, n), Height(s) - s.cy), y);
      }
    }
  }

  lemma DeleteObeys(s: Screen, n: UInt)
    requires Valid(s)
    ensures DeleteLaw(s, n, Step(s, DeleteLine(n)))
  {
    hide DeletedLines;
    var lower := if InRegion(s) then s.rlower else Height(s) - 1;
    forall y | 0 <= y < Height(s) ensures DeleteRow(s, n, Step(s, DeleteLine(n)), y) {
      DeletedAt(s.v.screen, lower, s.cy, Min(Max(1, n), lower + 1 - s.cy), y);
    }
  }

  // ----- The cursor

  /** Up to the upper margin from the region or below it, down to the lower one
      from the region or above it, otherwise to the edge of the screen. */
  predicate CursorLaw(s: Screen, op: Op, r: Screen)
    requires Valid(s)
  {
    && r.v == s.v
    && match op
       case CarriageReturn => SameRegion(r, s) && r.cx == 0 && r.cy == s.cy
       case CursorMove(x, y) =>
         SameRegion(r, s) && r.cx == Min(x, s.sx - 1) && r.cy == Min(y, Height(s) - 1)
       case CursorUp(n) =>
         && SameRegion(r, s) && r.cx == s.cx
         && r.cy == Max(if s.cy >= s.rupper then s.rupper else 0, s.cy - Max(1, n))
       case CursorDown(n) =>
         && SameRegion(r, s) && r.cx == s.cx
         && r.cy == Min(if s.cy <= s.rlower then s.rlower else Height(s) - 1, s.cy + Max(1, n))
       case CursorLeft(n) => SameRegion(r, s) && r.cy == s.cy && r.cx == Max(0, s.cx - Max(1, n))
       case CursorRight(n) =>
         && SameRegion(r, s) && r.cy == s.cy
         && (s.cx < s.sx ==> r.cx == Min(s.sx - 1, s.cx + Max(1, n)))
         && (s.cx >= s.sx ==> r.cx == Add32(s.cx, Min(Max(1, n), UINT_SIZE - 1 - (s.cx - s.sx))))
       case ScrollRegion(u, l) =>
         var upper, lower := Min(u, Height(s) - 1), Min(l, Height(s) - 1);
         if upper >= lower then SameCursor(r, s) && SameRegion(r, s)
         else r.cx == 0 && r.cy == 0 && r.rupper == upper && r.rlower == lower
       case _ => true
  }

  lemma RightObeys(s: Screen, n: UInt)
    requires Valid(s)
    ensures CursorLaw(s, CursorRight(n), Step(s, CursorRight(n)))
  {}

  lemma CursorObeys(s: Screen, op: Op)
    requires Valid(s)
    requires !op.Linefeed? && !op.ReverseIndex? && !op.InsertLine? && !op.DeleteLine?
    requires !op.ClearLine? && !op.ClearScreen? && !op.WriteCell?
    ensures Enabled(s, op) && CursorLaw(s, op, Step(s, op))
  {
    hide Add32, Sub32;
    if op.CursorRight? { RightObeys(s, op.n); }
  }

  // ----- Clearing

  predicate Empty(l: Line) {
    l.cells == [] && l.utf8 == []
  }

  predicate ClearLineLaw(s: Screen, r: Screen)
    requires Valid(s)
  {
    SameCursor(r, s) && SameRegion(r, s) && r.v == View(s.v.history, s.v.screen[s.cy := BLANK])
  }

  /** The screen is left empty. With history on its lines down to the last used
      one, and no others, are the newest of the history. */
  predicate ClearScreenLaw(s: Screen, r: Screen)
    requires Valid(s)
  {
    && SameCursor(r, s) && SameRegion(r, s) && Height(r) == Height(s)
    && (forall y :: 0 <= y < Height(s) ==> Empty(r.v.screen[y]))
    && (!s.historyOn ==> r.v.history == s.v.history)
    && (s.historyOn ==>
          exists n :: 0 <= n <= Height(s)
            && (forall y :: n <= y < Height(s) ==> Empty(s.v.screen[y]))
            && (n > 0 ==> !Empty(s.v.screen[n - 1]))
            && EndOf(r.v.history, s.v.history + s.v.screen[..n])
            && (|s.v.history| + n <= s.hlimit ==> r.v.history == s.v.history + s.v.screen[..n]))
  }

  lemma {:induction false} PushedAll(h: seq<Line>, lines: seq<Line>, hlimit: nat)
    requires |h| + |lines| <= hlimit
    ensures Pushed(h, lines, hlimit) == h + lines
    decreases |lines|
  {
    if lines != [] {
      PushedAll(h + [lines[0]], lines[1..], hlimit);
      assert h + [lines[0]] + lines[1..] == h + lines;
    }
  }

  lemma ClearScreenObeys(s: Screen)
    requires Valid(s)
    ensures ClearScreenLaw(s, Step(s, ClearScreen))
  {
    hide ScrolledAway, LastUsed, Pushed;
    if s.historyOn {
      var n, h := LastUsed(s.v.screen), s.v.history;
      ScrolledAwayScreen(s.v, n, s.hlimit);
      ScrolledAwayPushes(s.v, n, s.hlimit);
      assert h[0..] == h;
      PushedBound(h, h, s.v.screen[..n], s.hlimit);
      if |h| + n <= s.hlimit { PushedAll(h, s.v.screen[..n], s.hlimit); }
    }
  }

  // ----- Writing

  /** Column z is padding that belongs to the same character as column x, or the
      column that character starts in. */
  predicate ReachesBack(l: Line, z: nat, x: nat) {
    forall k :: z < k <= x ==> Peek(l, k).padding
  }

  predicate ReachesAhead(l: Line, y: nat, z: nat) {
    forall k :: y <= k <= z ==> Peek(l, k).padding
  }

  /** The character stands at x, with padding after it if it is two columns
      wide. What it cuts of other characters is cleared, before it and after it;
      other columns are as they were. */
  ghost predicate WrittenLaw(l: Line, x: nat, c: Char, sx: nat, r: Line) {
    var y := x + Width(c);
    && Peek(r, x) == c.cell && (c.cell.utf8 ==> PeekUtf8(r, x) == Some(c.utf8))
    && (Width(c) == 2 ==> Peek(r, x + 1).padding)
    && (forall z: nat :: z < x ==>
          Peek(r, z) == if Peek(l, x).padding && ReachesBack(l, z, x) then DEFAULT_CELL else Peek(l, z))
    && (forall z: nat :: y <= z < sx ==>
          Peek(r, z) == if ReachesAhead(l, y, z) then DEFAULT_CELL else Peek(l, z))
    && (forall z: nat :: sx <= z && y <= z ==> Peek(r, z) == Peek(l, z))
    && (forall z: nat :: z != x && z < |l.utf8| ==> PeekUtf8(r, z) == PeekUtf8(l, z))
  }

  lemma {:induction false} BackClears(l: Line, x: nat, z: nat)
    ensures Peek(ClearBack(l, x), z) == if z <= x && ReachesBack(l, z, x) then DEFAULT_CELL else Peek(l, z)
    decreases x
  {
    hide WithCell, Peek, ReachesBack;
    var m := WithCell(l, x, DEFAULT_CELL);
    P.WithCellAt(l, x, DEFAULT_CELL, z);
    ReachesHere(l, z, x);
    if x > 0 && Peek(l, x).padding {
      BackClears(m, x - 1, z);
      if z < x { ReachesOn(l, m, z, x); }
    }
  }

  lemma ReachesHere(l: Line, z: nat, x: nat)
    ensures z == x ==> ReachesBack(l, z, x)
    ensures z < x && !Peek(l, x).padding ==> !ReachesBack(l, z, x)
  {}

  lemma ReachesOn(l: Line, m: Line, z: nat, x: nat)
    requires z < x && Peek(l, x).padding && m == WithCell(l, x, DEFAULT_CELL)
    ensures ReachesBack(m, z, x - 1) == ReachesBack(l, z, x)
  {
    hide WithCell, Peek;
    forall k: nat ensures Peek(m, k) == if k == x then DEFAULT_CELL else Peek(l, k) { P.WithCellAt(l, x, DEFAULT_CELL, k); }
    assert forall k :: z < k <= x - 1 ==> Peek(m, k) == Peek(l, k);
  }

  lemma {:induction false} AheadClears(l: Line, y: nat, sx: nat, z: nat)
    ensures Peek(ClearAhead(l, y, sx), z) == if y <= z < sx && ReachesAhead(l, y, z) then DEFAULT_CELL else Peek(l, z)
    decreases sx - y
  {
    hide WithCell, Peek, ReachesAhead;
    AheadHere(l, y, z);
    if y < sx && Peek(l, y).padding {
      var m := WithCell(l, y, DEFAULT_CELL);
      P.WithCellAt(l, y, DEFAULT_CELL, z);
      AheadClears(m, y + 1, sx, z);
      if y < z { AheadOn(l, m, y, z); }
    }
  }

  lemma AheadHere(l: Line, y: nat, z: nat)
    ensures y <= z && !Peek(l, y).padding ==> !ReachesAhead(l, y, z)
    ensures y == z && Peek(l, y).padding ==> ReachesAhead(l, y, z)
  {}

  lemma AheadOn(l: Line, m: Line, y: nat, z: nat)
    requires y < z && Peek(l, y).padding && m == WithCell(l, y, DEFAULT_CELL)
    ensures ReachesAhead(m, y + 1, z) == ReachesAhead(l, y, z)
  {
    hide WithCell, Peek;
    forall k: nat ensures Peek(m, k) == if k == y then DEFAULT_CELL else Peek(l, k) { P.WithCellAt(l, y, DEFAULT_CELL, k); }
    assert forall k :: y + 1 <= k <= z ==> Peek(m, k) == Peek(l, k);
  }

  lemma {:induction false} BackKeeps(l: Line, x: nat)
    ensures ClearBack(l, x).wrapped == l.wrapped && ClearBack(l, x).utf8 == l.utf8
    decreases x
  {
    if x > 0 { BackKeeps(WithCell(l, x, DEFAULT_CELL), x - 1); }
  }

  lemma {:induction false} AheadKeeps(l: Line, y: nat, sx: nat)
    ensures ClearAhead(l, y, sx).wrapped == l.wrapped && ClearAhead(l, y, sx).utf8 == l.utf8
    decreases sx - y
  {
    if y < sx { AheadKeeps(WithCell(l, y, DEFAULT_CELL), y + 1, sx); }
  }

  lemma OverwrittenKeeps(l: Line, x: nat, width: nat, sx: nat)
    ensures Overwritten(l, x, width, sx).wrapped == l.wrapped && Overwritten(l, x, width, sx).utf8 == l.utf8
  {
    hide ClearBack, ClearAhead;
    BackKeeps(l, x);
    AheadKeeps(if Peek(l, x).padding then ClearBack(l, x) else l, x + width, sx);
  }

  lemma OverwrittenAt(l: Line, x: nat, width: nat, sx: nat, z: nat)
    requires width >= 1
    ensures z < x ==>
              Peek(Overwritten(l, x, width, sx), z)
              == if Peek(l, x).padding && ReachesBack(l, z, x) then DEFAULT_CELL else Peek(l, z)
    ensures x + width <= z < sx ==>
              Peek(Overwritten(l, x, width, sx), z) == if ReachesAhead(l, x + width, z) then DEFAULT_CELL else Peek(l, z)
    ensures sx <= z && x + width <= z ==> Peek(Overwritten(l, x, width, sx), z) == Peek(l, z)
  {
    hide Peek, ClearBack, ClearAhead, ReachesBack, ReachesAhead;
    var m, y := if Peek(l, x).padding then ClearBack(l, x) else l, x + width;
    BackClears(l, x, z);
    AheadClears(m, y, sx, z);
    if y <= z { SameAhead(l, x, y, z); }
  }

  lemma SameAhead(l: Line, x: nat, y: nat, z: nat)
    requires x < y <= z
    ensures ReachesAhead(if Peek(l, x).padding then ClearBack(l, x) else l, y, z) == ReachesAhead(l, y, z)
  {
    hide Peek, ClearBack;
    var m := if Peek(l, x).padding then ClearBack(l, x) else l;
    forall k: nat | y <= k ensures Peek(m, k) == Peek(l, k) { BackClears(l, x, k); }
    assert forall k :: y <= k <= z ==> Peek(m, k) == Peek(l, k);
  }

  lemma WrittenObeys(l: Line, x: nat, c: Char, sx: nat)
    requires 1 <= Width(c) <= 2 && x + Width(c) <= sx
    ensures WrittenLaw(l, x, c, sx, Written(l, x, c, sx)) && Written(l, x, c, sx).wrapped == l.wrapped
  {
    hide Peek, WithCell, Written, ReachesBack, ReachesAhead, HasUtf8, Overwritten;
    OverwrittenKeeps(l, x, Width(c), sx);
    P.WrittenCells(l, x, c, sx);
    SameMark(l, x, c, sx);
    var r := Written(l, x, c, sx);
    forall z: nat | z < x
      ensures Peek(r, z) == if Peek(l, x).padding && ReachesBack(l, z, x) then DEFAULT_CELL else Peek(l, z)
    {
      OverwrittenAt(l, x, Width(c), sx, z);
    }
    forall z: nat | x + Width(c) <= z
      ensures Peek(r, z) == if z < sx && ReachesAhead(l, x + Width(c), z) then DEFAULT_CELL else Peek(l, z)
    {
      OverwrittenAt(l, x, Width(c), sx, z);
    }
  }

  lemma SameMark(l: Line, x: nat, c: Char, sx: nat)
    ensures Written(l, x, c, sx).wrapped == l.wrapped
  {
    hide Overwritten;
    OverwrittenKeeps(l, x, Width(c), sx);
  }

  /** Where the character does not fit in what is left of the line it goes to the
      start of the next one, and the line it leaves is marked as wrapped. */
  ghost predicate WriteLaw(s: Screen, c: Char, r: Screen)
    requires Valid(s) && Enabled(s, WriteCell(c))
  {
    if c.cell.padding then r == s
    else
      var t := if s.cx + Width(c) > s.sx then Step(Step(s, Linefeed(true)), CarriageReturn) else s;
      && r.cx == t.cx + Width(c) && r.cy == t.cy && SameRegion(r, t)
      && r.v.history == t.v.history && Height(r) == Height(t)
      && (forall y :: 0 <= y < Height(t) && y != t.cy ==> r.v.screen[y] == t.v.screen[y])
      && r.v.screen[t.cy].wrapped == t.v.screen[t.cy].wrapped
      && WrittenLaw(t.v.screen[t.cy], t.cx, c, s.sx, r.v.screen[t.cy])
  }

  lemma WriteObeys(s: Screen, c: Char)
    requires Valid(s) && Enabled(s, WriteCell(c))
    ensures WriteLaw(s, c, Step(s, WriteCell(c)))
  {
    hide WrittenLaw, Written, Fed;
    if !c.cell.padding {
      var t := if s.cx + Width(c) > s.sx then Step(Step(s, Linefeed(true)), CarriageReturn) else s;
      WrittenObeys(t.v.screen[t.cy], t.cx, c, s.sx);
    }
  }

  // ----- Steps

  ghost predicate StepLaw(s: Screen, op: Op, r: Screen)
    requires Valid(s) && Enabled(s, op)
  {
    match op
    case Linefeed(wrapped) => LinefeedLaw(s, wrapped, r)
    case ReverseIndex => ReverseLaw(s, r)
    case InsertLine(n) => InsertLaw(s, n, r)
    case DeleteLine(n) => DeleteLaw(s, n, r)
    case ClearLine => ClearLineLaw(s, r)
    case ClearScreen => ClearScreenLaw(s, r)
    case WriteCell(c) => WriteLaw(s, c, r)
    case _ => CursorLaw(s, op, r)
  }

  /** Every operation puts the lines, the cursor and the region where it says. */
  lemma StepObeys(s: Screen, op: Op)
    requires Valid(s) && Enabled(s, op)
    ensures StepLaw(s, op, Step(s, op))
  {
    hide LinefeedLaw, ReverseLaw, InsertLaw, DeleteLaw, ClearScreenLaw, WriteLaw, CursorLaw;
    hide Fed, Reversed, LinesInserted, LinesDeleted, ScreenModel.ScreenCleared, WrittenCell, RegionSet, CursorStep;
    match op
    case Linefeed(wrapped) => LinefeedObeys(s, wrapped);
    case ReverseIndex => ReverseObeys(s);
    case InsertLine(n) => InsertObeys(s, n);
    case DeleteLine(n) => DeleteObeys(s, n);
    case ClearLine =>
    case ClearScreen => ClearScreenObeys(s);
    case WriteCell(c) => WriteObeys(s, c);
    case _ => CursorObeys(s, op);
  }
}
