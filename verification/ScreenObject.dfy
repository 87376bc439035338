// The screen object: a grid, a cursor and a scroll region edited in place
// (screen.c, screen-write.c), each method proved to take its step of
// ScreenModel.
module ScreenObject {
  import opened Common
  import opened GridLines
  import opened GridData
  import opened GridView
  import M = ScreenModel

  class Screen {
    const grid: Grid
    var cx: UInt
    var cy: UInt
    var rupper: UInt
    var rlower: UInt

    ghost predicate Valid()
      reads this, grid
    {
      grid.Valid() && M.Valid(State())
    }

    ghost function State(): M.Screen
      reads this, grid
      requires grid.Valid()
    {
      M.Screen(grid.Whole(), grid.sx, grid.hlimit, grid.historyOn, cx, cy, rupper, rlower)
    }

    /** Lines that a call may add still fit in a u_int. */
    ghost predicate Room()
      reads grid
    {
      grid.hsize + 2 * grid.sy < UINT_SIZE
    }

    // screen_init
    constructor (sx: UInt, sy: UInt, hlimit: UInt)
      requires sx >= 1 && sy >= 1
      ensures Valid() && State() == M.Screen(View([], Blanks(sy)), sx, hlimit, true, 0, 0, 0, sy - 1)
      ensures fresh(grid)
    {
      grid := new Grid(sx, sy, hlimit);
      cx, cy := 0, 0;
      rupper, rlower := 0, sy - 1;
    }

    method SetWrapped(wrapped: bool)
      requires Valid()
      modifies grid`linedata
      ensures Valid() && State() == M.SetLine(old(State()), old(State()).v.screen[cy].(wrapped := wrapped))
    {
      var y := grid.hsize + cy;
      grid.linedata := grid.linedata[y := grid.linedata[y].(wrapped := wrapped)];
    }

    // screen_write_linefeed
    method Linefeed(wrapped: bool)
      requires Valid() && Room() && M.Feeds(State())
      modifies this`cy, grid`linedata, grid`hsize
      ensures Valid() && State() == M.Fed(old(State()), wrapped)
    {
      hide ScrolledUp, RegionUp;
      SetWrapped(wrapped);
      if cy == rlower {
        ScrollUpRegion();
      } else if cy < grid.sy - 1 {
        cy := cy + 1;
      }
    }

    method ScrollUpRegion()
      requires Valid() && Room() && (grid.historyOn ==> CanScroll(grid.Whole(), rupper, rlower, grid.hlimit))
      modifies grid`linedata, grid`hsize
      ensures Valid() && State() == M.ScrollUp(old(State()))
    {
      hide ScrolledUp, RegionUp;
      if grid.historyOn || rupper < rlower {
        ScrollRegionUp(grid, rupper, rlower);
      }
    }

    // screen_write_carriagereturn
    method CarriageReturn()
      requires Valid()
      modifies this`cx
      ensures Valid() && State() == M.Step(old(State()), M.CarriageReturn)
    {
      cx := 0;
    }

    // screen_write_reverseindex
    method ReverseIndex()
      requires Valid()
      modifies this`cy, grid`linedata
      ensures Valid() && State() == M.Step(old(State()), M.ReverseIndex)
    {
      hide RegionDown;
      if cy == rupper {
        if rupper < rlower {
          ScrollRegionDown(grid, rupper, rlower);
        }
      } else if cy > 0 {
        cy := cy - 1;
      }
    }

    // screen_write_insertline
    method InsertLine(n: UInt)
      requires Valid()
      modifies grid`linedata
      ensures Valid() && State() == M.Step(old(State()), M.InsertLine(n))
    {
      hide InsertedLines, OpenedLines;
      var ny := if n == 0 then 1 else n;
      if cy < rupper || cy > rlower {
        if ny > grid.sy - cy {
          ny := grid.sy - cy;
        }
        InsertLines(grid, cy, ny);
        return;
      }
      if ny > rlower + 1 - cy {
        ny := rlower + 1 - cy;
      }
      InsertLinesRegion(grid, rlower, cy, ny);
    }

    // screen_write_deleteline
    method DeleteLine(n: UInt)
      requires Valid()
      modifies grid`linedata
      ensures Valid() && State() == M.Step(old(State()), M.DeleteLine(n))
    {
      hide DeletedLines;
      var ny := if n == 0 then 1 else n;
      if cy < rupper || cy > rlower {
        if ny > grid.sy - cy {
          ny := grid.sy - cy;
        }
        DeleteLines(grid, cy, ny);
        return;
      }
      if ny > rlower + 1 - cy {
        ny := rlower + 1 - cy;
      }
      DeleteLinesRegion(grid, rlower, cy, ny);
    }

    // screen_write_scrollregion
    method SetScrollRegion(u: UInt, l: UInt)
      requires Valid()
      modifies this
      ensures Valid() && State() == M.Step(old(State()), M.ScrollRegion(u, l))
    {
      var upper, lower := u, l;
      if upper > grid.sy - 1 {
        upper := grid.sy - 1;
      }
      if lower > grid.sy - 1 {
        lower := grid.sy - 1;
      }
      if upper >= lower {
        return;
      }
      cx := 0;
      cy := 0;
      rupper := upper;
      rlower := lower;
    }

    // screen_write_cursormove
    method CursorMove(x: UInt, y: UInt)
      requires Valid()
      modifies this`cx, this`cy
      ensures Valid() && State() == M.Step(old(State()), M.CursorMove(x, y))
    {
      cx := if x > grid.sx - 1 then grid.sx - 1 else x;
      cy := if y > grid.sy - 1 then grid.sy - 1 else y;
    }

    // screen_write_cursorup
    method CursorUp(n: UInt)
      requires Valid()
      modifies this`cy
      ensures Valid() && State() == M.Step(old(State()), M.CursorUp(n))
    {
      var ny := if n == 0 then 1 else n;
      if cy < rupper {
        if ny > cy {
          ny := cy;
        }
      } else {
        if ny > cy - rupper {
          ny := cy - rupper;
        }
      }
      cy := cy - ny;
    }

    // screen_write_cursordown
    method CursorDown(n: UInt)
      requires Valid()
      modifies this`cy
      ensures Valid() && State() == M.Step(old(State()), M.CursorDown(n))
    {
      var ny := if n == 0 then 1 else n;
      if cy > rlower {
        if ny > grid.sy - 1 - cy {
          ny := grid.sy - 1 - cy;
        }
      } else {
        if ny > rlower - cy {
          ny := rlower - cy;
        }
      }
      cy := cy + ny;
    }

    // screen_write_cursorleft
    method CursorLeft(n: UInt)
      requires Valid()
      modifies this`cx
      ensures Valid() && State() == M.Step(old(State()), M.CursorLeft(n))
    {
      var nx := if n == 0 then 1 else n;
      if nx > cx {
        nx := cx;
      }
      cx := cx - nx;
    }

    // screen_write_cursorright
    method CursorRight(n: UInt)
      requires Valid()
      modifies this`cx
      ensures Valid() && State() == M.Step(old(State()), M.CursorRight(n))
    {
      var nx := if n == 0 then 1 else n;
      if nx > Sub32(grid.sx - 1, cx) {
        nx := Sub32(grid.sx - 1, cx);
      }
      cx := Add32(cx, nx);
    }

    // screen_write_clearline
    method ClearLine()
      requires Valid()
      modifies grid`linedata
      ensures Valid() && State() == M.Step(old(State()), M.ClearLine)
    {
      ghost var lines := grid.linedata;
      var y := grid.hsize + cy;
      grid.Clear(0, y, grid.sx, 1);
      assert grid.linedata == lines[y := BLANK];
    }

    // screen_write_clearscreen
    method ClearScreen()
      requires Valid() && Room()
      modifies grid`linedata, grid`hsize
      ensures Valid() && State() == M.Step(old(State()), M.ClearScreen)
    {
      hide ScrolledAway, LastUsed, ClearedLines;
      if grid.historyOn {
        ClearHistory(grid);
      } else {
        ScreenCleared(grid.linedata, grid.hsize, grid.sy, 0, grid.sy);
        ClearedWhole(grid.Screen());
        grid.Clear(0, grid.hsize, grid.sx, grid.sy);
      }
    }

    // ----- Writing characters

    /** The line the cursor is on. */
    ghost function Line(): GridLines.Line
      reads this, grid
      requires Valid()
    {
      State().v.screen[cy]
    }

    // grid_view_set_cell on the cursor's line
    method SetCell(x: UInt, gc: Cell)
      requires Valid() && x < UINT_SIZE - 1
      modifies grid`linedata
      ensures Valid() && State() == M.SetLine(old(State()), WithCell(old(Line()), x, gc))
    {
      hide WithCell;
      grid.SetCell(x, grid.hsize + cy, gc);
    }

    // grid_view_set_utf8 on the cursor's line
    method SetUtf8(x: UInt, gu: Utf8Cell)
      requires Valid() && x < UINT_SIZE - 1
      modifies grid`linedata
      ensures Valid() && State() == M.SetLine(old(State()), WithUtf8(old(Line()), x, gu))
    {
      hide WithUtf8;
      grid.SetUtf8(x, grid.hsize + cy, gu);
    }

    // grid_view_peek_cell on the cursor's line
    method PeekCell(x: UInt) returns (gc: Cell)
      requires Valid()
      ensures gc == Peek(Line(), x)
    {
      gc := grid.PeekCell(x, grid.hsize + cy);
    }

    // screen_write_overwrite
    method Overwrite(width: UInt)
      requires Valid() && 1 <= width && cx + width <= grid.sx
      modifies grid`linedata
      ensures Valid() && State() == M.SetLine(old(State()), M.Overwritten(old(Line()), cx, width, grid.sx))
    {
      hide WithCell, Peek, M.SetLine, M.ClearBack, M.ClearAhead, M.Valid;
      ghost var s, l := State(), Line();
      M.SetLineTwice(s, l, l);
      var gc := PeekCell(cx);
      if gc.padding {
        OverwriteBack();
        M.SetLineTwice(s, M.ClearBack(l, cx), l);
      }
      ghost var m := Line();
      OverwriteAhead(cx + width);
      M.SetLineTwice(s, m, M.ClearAhead(m, cx + width, grid.sx));
    }

    // Padding left over from a character about to be covered.
    method OverwriteAhead(from: UInt)
      requires Valid() && from <= grid.sx
      modifies grid`linedata
      ensures Valid() && State() == M.SetLine(old(State()), M.ClearAhead(old(Line()), from, grid.sx))
    {
      hide WithCell, Peek, M.SetLine, M.Valid;
      ghost var s, l := State(), Line();
      M.SetLineTwice(s, l, l);
      var xx: UInt := from;
      while xx < grid.sx
        invariant Valid() && from <= xx <= grid.sx && State() == M.SetLine(s, Line())
        invariant M.ClearAhead(Line(), xx, grid.sx) == M.ClearAhead(l, from, grid.sx)
      {
        var gc := PeekCell(xx);
        if !gc.padding {
          break;
        }
        ghost var next := WithCell(Line(), xx, DEFAULT_CELL);
        M.SetLineTwice(s, Line(), next);
        M.SetLineTwice(s, next, next);
        SetCell(xx, DEFAULT_CELL);
        xx := xx + 1;
      }
    }

    // From the cursor's padding cell back to the character it belongs to.
    method OverwriteBack()
      requires Valid() && cx < grid.sx
      modifies grid`linedata
      ensures Valid() && State() == M.SetLine(old(State()), M.ClearBack(old(Line()), cx))
    {
      hide WithCell, Peek, M.SetLine, M.Valid;
      ghost var s, l := State(), Line();
      M.SetLineTwice(s, l, l);
      var xx: UInt := cx;
      while xx > 0
        invariant Valid() && State() == M.SetLine(s, Line())
        invariant M.ClearBack(Line(), xx) == M.ClearBack(l, cx)
      {
        var gc := PeekCell(xx);
        if !gc.padding {
          break;
        }
        ghost var next := WithCell(Line(), xx, DEFAULT_CELL);
        M.SetLineTwice(s, Line(), next);
        M.SetLineTwice(s, next, next);
        SetCell(xx, DEFAULT_CELL);
        xx := xx - 1;
      }
      M.SetLineTwice(s, Line(), WithCell(Line(), xx, DEFAULT_CELL));
      SetCell(xx, DEFAULT_CELL);
    }

    // screen_write_cell in wrap mode without insert mode, for widths 1 and 2
    method WriteCell(c: M.Char)
      requires Valid() && Room() && M.Enabled(State(), M.WriteCell(c))
      modifies this`cx, this`cy, grid`linedata, grid`hsize
      ensures Valid() && State() == M.Step(old(State()), M.WriteCell(c))
    {
      hide WithCell, WithUtf8, Peek, M.Fed;
      if c.cell.padding {
        return;
      }
      var width: UInt := if c.cell.utf8 then c.utf8.width else 1;
      if cx > grid.sx - width {
        Linefeed(true);
        cx := 0;
      }
      WriteHere(c, width);
      cx := cx + width;
    }

    method WriteHere(c: M.Char, width: UInt)
      requires Valid() && 1 <= width <= 2 && width == M.Width(c) && cx + width <= grid.sx && cx < UINT_SIZE - 2
      modifies grid`linedata
      ensures Valid() && State() == M.SetLine(old(State()), M.Written(old(Line()), cx, c, grid.sx))
    {
      hide WithCell, WithUtf8, Peek, M.Overwritten, M.SetLine, M.Valid;
      ghost var s, l := State(), Line();
      Overwrite(width);
      ghost var o := M.Overwritten(l, cx, width, grid.sx);
      M.SetLineTwice(s, o, o);
      ghost var p := if width == 2 then M.Padded(o, cx + 1) else o;
      M.SetLineTwice(s, o, p);
      M.SetLineTwice(s, p, p);
      var xx: UInt := cx + 1;
      while xx < cx + width
        invariant Valid() && cx + 1 <= xx <= cx + width && State() == M.SetLine(s, if xx == cx + 1 then o else p)
      {
        var gc := PeekCell(xx);
        SetCell(xx, gc.(padding := true));
        xx := xx + 1;
      }
      SetCell(cx, c.cell);
      ghost var w := WithCell(p, cx, c.cell);
      M.SetLineTwice(s, p, w);
      M.SetLineTwice(s, w, w);
      if c.cell.utf8 {
        SetUtf8(cx, c.utf8);
        M.SetLineTwice(s, w, WithUtf8(w, cx, c.utf8));
      }
    }

    // screen_write_deletecharacter; past the last column there is nothing to
    // delete.
    method DeleteCharacter(n: UInt)
      requires Valid() && HasUtf8(Line())
      modifies grid`linedata
      ensures Valid() && State() == M.SetLine(old(State()), Line()) && HasUtf8(Line())
      ensures cx >= grid.sx ==> State() == old(State())
      ensures cx < grid.sx ==>
                ShowsDeleted(Line(), old(Line()), grid.sx, cx, Min(M.AtLeastOne(n), grid.sx - cx))
    {
      hide HasUtf8, ShowsDeleted;
      ghost var s := State();
      M.SetLineTwice(s, Line(), Line());
      var nx := if n == 0 then 1 else n;
      if nx > Sub32(grid.sx, cx) {
        nx := Sub32(grid.sx, cx);
      }
      if nx == 0 {
        return;
      }
      if cx <= grid.sx - 1 {
        DeleteCells(grid, cx, cy, nx);
      }
    }

    // ----- Resizing

    // screen_resize_y; the size is at least 1 and not the current one.
    method ResizeY(sy: UInt)
      requires Valid() && 1 <= sy && sy != grid.sy && grid.hsize + sy < UINT_SIZE
      modifies this, grid
      ensures Valid() && State() == M.Resized(old(State()), sy)
    {
      if sy < grid.sy {
        Shrink(sy);
      } else {
        Grow(sy);
      }
    }

    // To a smaller height.
    method Shrink(sy: UInt)
      requires Valid() && 1 <= sy < grid.sy
      modifies this, grid
      ensures Valid() && State() == M.Shrunk(old(State()), sy)
    {
      hide DeletedLines, M.Shrunk, Holds, M.SameKind;
      ghost var s := State();
      var needed := grid.sy - sy;
      var available := CutBottom(needed);
      needed := needed - available;
      ShrunkIs(s, sy, needed);
      SamePrefix(grid.Screen(), s.v.screen, grid.sy - available, needed + sy);
      if grid.historyOn {
        TakeOver(needed, sy, s.v);
      } else {
        LoseTop(needed, sy, s.v);
      }
      cy := cy - needed;
      FinishResize(sy, M.Shrunk(s, sy).v);
    }

    /** The array as it is to be after resizing. */
    ghost predicate Holds(v: View, sy: nat)
      reads grid
    {
      && grid.hsize + sy <= |grid.linedata|
      && grid.linedata[..grid.hsize] == v.history && grid.linedata[grid.hsize..grid.hsize + sy] == v.screen
    }

    // The history takes over the top lines where they are.
    method TakeOver(needed: UInt, sy: UInt, ghost v: View)
      requires Valid() && needed + sy <= grid.sy == |v.screen|
      requires grid.History() == v.history && grid.Screen()[..needed + sy] == v.screen[..needed + sy]
      modifies grid`hsize
      ensures grid.hsize == old(grid.hsize) + needed
      ensures Holds(View(v.history + v.screen[..needed], v.screen[needed..needed + sy]), sy)
    {
      TakenOver(grid.linedata, v.history, v.screen, grid.hsize, needed, sy);
      grid.hsize := grid.hsize + needed;
    }

    // Without history the lines above are lost.
    method LoseTop(needed: UInt, sy: UInt, ghost v: View)
      requires Valid() && needed + sy <= grid.sy == |v.screen| && needed <= cy
      requires grid.History() == v.history && grid.Screen()[..needed + sy] == v.screen[..needed + sy]
      modifies grid`linedata
      ensures grid.Valid() && Holds(View(v.history, v.screen[needed..needed + sy]), sy)
    {
      ghost var mid := grid.Screen();
      CutTop(needed);
      SameLines(grid.Screen(), mid, v.screen, needed, sy);
      assert grid.linedata[grid.hsize..grid.hsize + sy] == grid.Screen()[..sy];
    }

    // Lines below the cursor go first.
    method CutBottom(needed: UInt) returns (available: UInt)
      requires Valid() && 1 <= needed < grid.sy
      modifies grid`linedata
      ensures Valid() && available == Min(grid.sy - 1 - cy, needed)
      ensures grid.History() == old(grid.History())
      ensures grid.Screen()[..grid.sy - available] == old(grid.Screen())[..grid.sy - available]
    {
      hide DeletedLines;
      available := grid.sy - 1 - cy;
      if available > 0 {
        if available > needed {
          available := needed;
        }
        DeletedBottom(grid.Screen(), available);
        DeleteLines(grid, grid.sy - available, available);
      }
    }

    // The screen up by this many lines, blank ones below.
    method CutTop(needed: UInt)
      requires Valid() && needed <= cy
      modifies grid`linedata
      ensures Valid() && grid.History() == old(grid.History())
      ensures grid.Screen()[..grid.sy - needed] == old(grid.Screen())[needed..]
    {
      hide DeletedLines;
      var available := cy;
      if needed > 0 && available > 0 {
        if available > needed {
          available := needed;
        }
        DeletedTop(grid.Screen(), available);
        DeleteLines(grid, 0, available);
      }
    }

    // The array at its new length, and the whole height as scroll region.
    method FinishResize(sy: UInt, ghost v: View)
      requires 1 <= sy && grid.hsize + sy < UINT_SIZE && cy < sy
      requires grid.sx >= 1
      requires Holds(v, sy)
      modifies this`rupper, this`rlower, grid`sy, grid`linedata
      ensures Valid() && State() == M.Screen(v, grid.sx, grid.hlimit, grid.historyOn, cx, cy, 0, sy - 1)
    {
      ghost var lines := grid.linedata;
      grid.Realloc(grid.hsize + sy);
      assert grid.linedata == lines[..grid.hsize + sy];
      assert lines[..grid.hsize + sy][..grid.hsize] == lines[..grid.hsize];
      assert lines[..grid.hsize + sy][grid.hsize..] == lines[grid.hsize..grid.hsize + sy];
      grid.sy := sy;
      rupper := 0;
      rlower := grid.sy - 1;
    }

    // To a larger height.
    method Grow(sy: UInt)
      requires Valid() && grid.sy < sy && grid.hsize + sy < UINT_SIZE
      modifies this, grid
      ensures Valid() && State() == M.Grown(old(State()), sy)
    {
      hide M.Grown, Holds, PulledBack;
      ghost var s := State();
      var needed := sy - grid.sy;
      var available := grid.hsize;
      if grid.historyOn && available > 0 {
        if available > needed {
          available := needed;
        }
      } else {
        available := 0;
      }
      GrownIs(s, sy, available, needed - available);
      PullBack(sy, available, needed - available, s.v);
      cy := cy + available;
      FinishResize(sy, M.Grown(s, sy).v);
    }

    // The screen longer at the top by lines of the history and at the bottom by
    // blank ones.
    method PullBack(sy: UInt, available: UInt, n: UInt, ghost v: View)
      requires grid.Valid() && grid.Whole() == v && available <= grid.hsize && grid.hsize + sy < UINT_SIZE
      requires grid.sy + available + n == sy
      modifies grid`hsize, grid`linedata
      ensures grid.hsize == old(grid.hsize) - available
      ensures Holds(PulledBack(v, available, n), sy)
    {
      hide ClearedLines, Blanks;
      var i := grid.hsize + grid.sy;
      ResizeArray(grid.hsize + sy, v);
      GrownParts(grid.linedata, v.history, v.screen, grid.hsize - available, n);
      grid.hsize := grid.hsize - available;
      FillBlank(i, n);
    }

    method ResizeArray(n: UInt, ghost v: View)
      requires grid.Valid() && grid.Whole() == v && grid.hsize + grid.sy <= n
      modifies grid`linedata
      ensures |grid.linedata| == n && grid.linedata[..grid.hsize + grid.sy] == v.history + v.screen
    {
      grid.Realloc(n);
      assert grid.linedata[..grid.hsize + grid.sy] == v.history + v.screen;
    }

    method FillBlank(from: UInt, n: UInt)
      requires from + n < UINT_SIZE && from + n <= |grid.linedata|
      modifies grid`linedata
      ensures grid.linedata == ClearedLines(old(grid.linedata), from, n)
    {
      var i := from;
      while i < from + n
        invariant from <= i <= from + n && |grid.linedata| == |old(grid.linedata)|
        invariant forall k :: 0 <= k < |grid.linedata| ==>
                    grid.linedata[k] == if from <= k < i then BLANK else old(grid.linedata)[k]
      {
        grid.linedata := grid.linedata[i := BLANK];
        i := i + 1;
      }
      assert grid.linedata == ClearedLines(old(grid.linedata), from, n);
    }
  }

  lemma ClearedWhole(screen: seq<Line>)
    ensures ClearedLines(screen, 0, |screen|) == Blanks(|screen|)
  {}

  lemma DeletedBottom(screen: seq<Line>, n: nat)
    requires 1 <= n <= |screen|
    ensures DeletedLines(screen, |screen| - 1, |screen| - n, n)[..|screen| - n] == screen[..|screen| - n]
  {}

  lemma DeletedTop(screen: seq<Line>, n: nat)
    requires 1 <= n <= |screen|
    ensures DeletedLines(screen, |screen| - 1, 0, n)[..|screen| - n] == screen[n..]
  {}

  /** The array after growing, cut at the new history size. */
  lemma GrownParts(lines: seq<Line>, history: seq<Line>, screen: seq<Line>, keep: nat, n: nat)
    requires keep <= |history| && |history| + |screen| + n <= |lines|
    requires lines[..|history| + |screen|] == history + screen
    ensures var r := ClearedLines(lines, |history| + |screen|, n);
            && r[..keep] == history[..keep]
            && r[keep..|history| + |screen| + n] == history[keep..] + screen + Blanks(n)
  {
    assert forall k :: 0 <= k < |history| + |screen| ==> lines[k] == (history + screen)[k];
  }

  lemma SamePrefix(a: seq<Line>, b: seq<Line>, n: nat, m: nat)
    requires m <= n <= |a| && n <= |b| && a[..n] == b[..n]
    ensures a[..m] == b[..m]
  {
    assert a[..m] == a[..n][..m] && b[..m] == b[..n][..m];
  }

  lemma SameLines(r: seq<Line>, m: seq<Line>, screen: seq<Line>, top: nat, sy: nat)
    requires |r| == |m| == |screen| && top + sy <= |screen|
    requires m[..top + sy] == screen[..top + sy] && r[..|r| - top] == m[top..]
    ensures r[..sy] == screen[top..top + sy]
  {
    forall k | 0 <= k < sy ensures r[k] == screen[top + k] {
      assert r[k] == r[..|r| - top][k] == m[top..][k] == m[top + k];
      assert m[..top + sy][top + k] == screen[..top + sy][top + k];
    }
  }

  lemma ShrunkIs(s: M.Screen, sy: nat, top: nat)
    requires M.Valid(s) && 1 <= sy < M.Height(s)
    requires var needed := M.Height(s) - sy; top == needed - Min(M.Height(s) - 1 - s.cy, needed)
    ensures top <= s.cy && top + sy <= M.Height(s)
    ensures M.Shrunk(s, sy) == M.Screen(
              View(if s.historyOn then s.v.history + s.v.screen[..top] else s.v.history, s.v.screen[top..top + sy]),
              s.sx, s.hlimit, s.historyOn, s.cx, s.cy - top, 0, sy - 1)
  {}

  function PulledBack(v: View, back: nat, n: nat): View
    requires back <= |v.history|
  {
    var keep := |v.history| - back;
    View(v.history[..keep], v.history[keep..] + v.screen + Blanks(n))
  }

  lemma GrownIs(s: M.Screen, sy: nat, back: nat, n: nat)
    requires M.Valid(s) && M.Height(s) < sy < UINT_SIZE && back + n == sy - M.Height(s)
    requires back == if s.historyOn then Min(|s.v.history|, sy - M.Height(s)) else 0
    ensures M.Grown(s, sy) == M.Screen(PulledBack(s.v, back, n), s.sx, s.hlimit, s.historyOn, s.cx, s.cy + back, 0, sy - 1)
  {}

  /** Lines that the larger history size takes over from the screen. */
  lemma TakenOver(lines: seq<Line>, history: seq<Line>, screen: seq<Line>, hsize: nat, top: nat, sy: nat)
    requires |history| == hsize && hsize + |screen| <= |lines| && top + sy <= |screen|
    requires lines[..hsize] == history && lines[hsize..hsize + |screen|][..top + sy] == screen[..top + sy]
    ensures lines[..hsize + top] == history + screen[..top]
    ensures lines[hsize + top..hsize + top + sy] == screen[top..top + sy]
  {
    var shown := lines[hsize..hsize + |screen|];
    forall k | 0 <= k < top + sy ensures lines[hsize + k] == screen[k] {
      assert shown[k] == shown[..top + sy][k] == screen[..top + sy][k];
    }
    forall k | 0 <= k < hsize ensures lines[k] == history[k] {
      assert lines[..hsize][k] == history[k];
    }
  }
}
