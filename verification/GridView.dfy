// Operations on the visible lines (grid-view.c), by their effect on history
// and screen.
module GridView {
  import opened GridLines
  import opened GridData

  // ----- Moves and clears seen from the screen

  lemma ScreenMoved(lines: seq<Line>, hsize: nat, sy: nat, a: nat, b: nat, n: nat)
    requires hsize + sy <= |lines| && a + n <= sy && b + n <= sy
    ensures var r := MovedLines(lines, hsize + a, hsize + b, n);
            r[..hsize] == lines[..hsize] && r[hsize..hsize + sy] == MovedLines(lines[hsize..hsize + sy], a, b, n)
  {
    var r, m := MovedLines(lines, hsize + a, hsize + b, n), MovedLines(lines[hsize..hsize + sy], a, b, n);
    forall k | 0 <= k < sy ensures r[hsize..hsize + sy][k] == m[k] {
      assert r[hsize..hsize + sy][k] == r[hsize + k];
    }
  }

  lemma ScreenCleared(lines: seq<Line>, hsize: nat, sy: nat, a: nat, n: nat)
    requires hsize + sy <= |lines| && a + n <= sy
    ensures var r := ClearedLines(lines, hsize + a, n);
            r[..hsize] == lines[..hsize] && r[hsize..hsize + sy] == ClearedLines(lines[hsize..hsize + sy], a, n)
  {
    var r, m := ClearedLines(lines, hsize + a, n), ClearedLines(lines[hsize..hsize + sy], a, n);
    forall k | 0 <= k < sy ensures r[hsize..hsize + sy][k] == m[k] {
      assert r[hsize..hsize + sy][k] == r[hsize + k];
    }
  }

  lemma ClearedNone(lines: seq<Line>, py: nat)
    ensures ClearedLines(lines, py, 0) == lines
  {}

  lemma UpIsMove(screen: seq<Line>, upper: nat, lower: nat)
    requires upper < lower < |screen|
    ensures MovedLines(screen, upper, upper + 1, lower - upper) == RegionUp(screen, upper, lower)
  {}

  lemma DownIsMove(screen: seq<Line>, upper: nat, lower: nat)
    requires upper < lower < |screen|
    ensures MovedLines(screen, upper + 1, upper, lower - upper) == RegionDown(screen, upper, lower)
  {}

  /** Moving the kept lines down and clearing what the move left between them
      inserts blank lines, whether or not the two areas overlap. */
  lemma InsertIsMove(screen: seq<Line>, lower: nat, py: nat, n: nat)
    requires py + n <= lower + 1 <= |screen|
    ensures var kept := lower + 1 - py - n;
            var moved := MovedLines(screen, py + n, py, kept);
            InsertedLines(screen, lower, py, n) ==
            if kept < n then ClearedLines(moved, py + kept, n - kept) else moved
  {}

  lemma DeleteIsMove(screen: seq<Line>, lower: nat, py: nat, n: nat)
    requires py + n <= lower + 1 <= |screen|
    ensures var kept := lower + 1 - py - n;
            var moved := MovedLines(screen, py, py + n, kept);
            DeletedLines(screen, lower, py, n) ==
            if kept < n then ClearedLines(moved, py + kept, n - kept) else moved
  {
    var kept := lower + 1 - py - n;
    var moved := MovedLines(screen, py, py + n, kept);
    var r := if kept < n then ClearedLines(moved, py + kept, n - kept) else moved;
    forall k | 0 <= k < |screen| ensures DeletedLines(screen, lower, py, n)[k] == r[k] {
      hide DeletedLines;
      DeletedAt(screen, lower, py, n, k);
    }
  }

  lemma DeletedAt(screen: seq<Line>, lower: nat, py: nat, n: nat, k: nat)
    requires py + n <= lower + 1 <= |screen| && k < |screen|
    ensures DeletedLines(screen, lower, py, n)[k] ==
            if py <= k < lower + 1 - n then screen[k + n] else if py <= k <= lower then BLANK else screen[k]
  {
    hide Blanks;
    var kept := lower + 1 - py - n;
    var front := screen[..py] + screen[py + n..lower + 1];
    assert |front| == py + kept && forall j :: py <= j < py + kept ==> front[j] == screen[j + n];
    assert DeletedLines(screen, lower, py, n) == front + Blanks(n) + screen[lower + 1..];
  }

  // ----- Scrolling

  // grid_view_scroll_region_up
  method ScrollRegionUp(gd: Grid, rupper: UInt, rlower: UInt)
    requires gd.Valid() && rupper <= rlower < gd.sy && gd.hsize + gd.sy + 1 < UINT_SIZE
    requires if gd.historyOn then CanScroll(gd.Whole(), rupper, rlower, gd.hlimit) else rupper < rlower
    modifies gd`linedata, gd`hsize
    ensures gd.Valid()
    ensures gd.historyOn ==> gd.Whole() == ScrolledUp(old(gd.Whole()), rupper, rlower, gd.hlimit)
    ensures !gd.historyOn ==> gd.Whole() == View(old(gd.History()), RegionUp(old(gd.Screen()), rupper, rlower))
  {
    hide RegionUp, MovedLines, ScrolledUp;
    if gd.historyOn {
      ScrollIntoHistory(gd, rupper, rlower);
    } else {
      UpIsMove(gd.Screen(), rupper, rlower);
      MoveInScreen(gd, rupper, rupper + 1, rlower - rupper);
    }
  }

  // The branch with history on.
  method ScrollIntoHistory(gd: Grid, rupper: UInt, rlower: UInt)
    requires gd.Valid() && rupper <= rlower < gd.sy && gd.hsize + gd.sy + 1 < UINT_SIZE
    requires CanScroll(gd.Whole(), rupper, rlower, gd.hlimit)
    modifies gd`linedata, gd`hsize
    ensures gd.Valid() && gd.Whole() == ScrolledUp(old(gd.Whole()), rupper, rlower, gd.hlimit)
  {
    hide RegionUp, Recorded, Trimmed;
    ghost var v := gd.Whole();
    Collect(gd);
    if rupper == 0 && rlower == gd.sy - 1 {
      ScrollWhole(gd, v);
    } else {
      ScrollInside(gd, rupper, rlower, v);
    }
  }

  /** The grid after a collection: its history trimmed, or, empty with a limit
      of 0, wrapped around. */
  ghost predicate Collected(gd: Grid, v: View)
    reads gd
  {
    && v.screen != []
    && if gd.hlimit >= 1 || v.history != [] then gd.Valid() && gd.Whole() == View(Trimmed(v.history, gd.hlimit), v.screen)
       else gd.Wrapped() && gd.sy == |v.screen| && gd.linedata[..gd.sy - 1] == v.screen[1..]
  }

  method Collect(gd: Grid)
    requires gd.Valid()
    modifies gd`linedata, gd`hsize
    ensures Collected(gd, old(gd.Whole())) && (gd.Wrapped() || gd.hsize <= old(gd.hsize))
  {
    if gd.hlimit >= 1 || gd.hsize >= 1 { TrimmedIs(gd.History(), gd.hlimit); }
    gd.CollectHistory();
  }

  method ScrollWhole(gd: Grid, ghost v: View)
    requires Collected(gd, v) && (gd.Wrapped() || gd.hsize + gd.sy + 1 < UINT_SIZE)
    modifies gd`linedata, gd`hsize
    ensures gd.Valid() && gd.Whole() == ScrolledUp(v, 0, |v.screen| - 1, gd.hlimit) && gd.hsize == Add32(old(gd.hsize), 1)
  {
    hide Trimmed;
    WholeUp(v.screen);
    gd.ScrollHistory();
  }

  method ScrollInside(gd: Grid, rupper: UInt, rlower: UInt, ghost v: View)
    requires Collected(gd, v) && rupper <= rlower < gd.sy && (gd.Wrapped() || gd.hsize + gd.sy + 1 < UINT_SIZE)
    requires gd.hlimit >= 1 || v.history != []
    modifies gd`linedata, gd`hsize
    ensures gd.Valid() && gd.Whole() == ScrolledUp(v, rupper, rlower, gd.hlimit)
  {
    hide RegionUp, Trimmed;
    gd.ScrollHistoryRegion(gd.hsize + rupper, gd.hsize + rlower);
  }

  lemma WholeUp(screen: seq<Line>)
    requires screen != []
    ensures RegionUp(screen, 0, |screen| - 1) == screen[1..] + [BLANK]
  {}

  // grid_move_lines on visible lines.
  method MoveInScreen(gd: Grid, a: UInt, b: UInt, n: UInt)
    requires gd.Valid() && a + n <= gd.sy && b + n <= gd.sy
    modifies gd`linedata
    ensures gd.Valid() && gd.History() == old(gd.History())
    ensures gd.Screen() == MovedLines(old(gd.Screen()), a, b, n)
  {
    hide MovedLines;
    ScreenMoved(gd.linedata, gd.hsize, gd.sy, a, b, n);
    gd.MoveLines(gd.hsize + a, gd.hsize + b, n);
  }

  // grid_view_scroll_region_down
  method ScrollRegionDown(gd: Grid, rupper: UInt, rlower: UInt)
    requires gd.Valid() && rupper < rlower < gd.sy
    modifies gd`linedata
    ensures gd.Valid() && gd.Whole() == View(old(gd.History()), RegionDown(old(gd.Screen()), rupper, rlower))
  {
    DownIsMove(gd.Screen(), rupper, rlower);
    MoveInScreen(gd, rupper + 1, rupper, rlower - rupper);
  }

  // ----- Clearing the screen into the history

  predicate Used(l: Line) {
    l.cells != [] || l.utf8 != []
  }

  /** One past the last line that holds anything. */
  function LastUsed(screen: seq<Line>): (n: nat)
    ensures n <= |screen| && (n > 0 ==> Used(screen[n - 1]))
    ensures forall k :: n <= k < |screen| ==> !Used(screen[k])
  {
    if screen == [] then 0
    else if Used(screen[|screen| - 1]) then |screen|
    else LastUsed(screen[..|screen| - 1])
  }

  /** The top n lines scrolled off, one after the other. */
  function ScrolledAway(v: View, n: nat, hlimit: nat): (r: View)
    requires n <= |v.screen| && v.screen != []
    ensures |r.screen| == |v.screen|
  {
    if n == 0 then v else ScrolledUp(ScrolledAway(v, n - 1, hlimit), 0, |v.screen| - 1, hlimit)
  }

  lemma NextAway(screen: seq<Line>, n: nat)
    requires 1 <= n <= |screen|
    ensures (screen[n - 1..] + Blanks(n - 1))[1..] + [BLANK] == screen[n..] + Blanks(n)
  {
    hide Blanks;
  }

  /** The screen is left with the other lines on top and blank lines below. */
  lemma {:induction false} ScrolledAwayScreen(v: View, n: nat, hlimit: nat)
    requires n <= |v.screen| && v.screen != []
    ensures ScrolledAway(v, n, hlimit).screen == v.screen[n..] + Blanks(n)
  {
    if n == 0 {
      assert v.screen[0..] + Blanks(0) == v.screen;
    } else {
      ScrolledAwayScreen(v, n - 1, hlimit);
      WholeUp(ScrolledAway(v, n - 1, hlimit).screen);
      NextAway(v.screen, n);
    }
  }

  // grid_view_clear_history
  method ClearHistory(gd: Grid)
    requires gd.Valid() && gd.hsize + 2 * gd.sy < UINT_SIZE
    modifies gd`linedata, gd`hsize
    ensures gd.Valid() && gd.Whole() == ScrolledAway(old(gd.Whole()), LastUsed(old(gd.Screen())), gd.hlimit)
  {
    hide RegionUp, ScrolledUp, Trimmed, LastUsed;
    ghost var v := gd.Whole();
    var last := FindLast(gd);
    var yy := 0;
    while yy < last
      invariant yy <= last <= gd.sy && gd.Valid() && gd.hsize <= old(gd.hsize) + yy
      invariant gd.Whole() == ScrolledAway(v, yy, gd.hlimit)
    {
      ScrollOne(gd);
      yy := yy + 1;
    }
  }

  method FindLast(gd: Grid) returns (last: UInt)
    requires gd.Valid()
    ensures last == LastUsed(gd.Screen())
  {
    ghost var screen := gd.Screen();
    last := 0;
    var yy := 0;
    assert screen[..0] == [];
    while yy < gd.sy
      invariant yy <= gd.sy && last == LastUsed(screen[..yy])
    {
      var gl := gd.linedata[gd.hsize + yy];
      assert screen[..yy + 1][..yy] == screen[..yy];
      if gl.cells != [] || gl.utf8 != [] {
        last := yy + 1;
      }
      yy := yy + 1;
    }
    assert screen[..yy] == screen;
  }

  // The body of the loop: collect, then scroll the whole screen.
  method ScrollOne(gd: Grid)
    requires gd.Valid() && gd.hsize + gd.sy + 1 < UINT_SIZE
    modifies gd`linedata, gd`hsize
    ensures gd.Valid() && gd.Whole() == ScrolledUp(old(gd.Whole()), 0, gd.sy - 1, gd.hlimit)
    ensures gd.hsize <= old(gd.hsize) + 1
  {
    hide RegionUp, Trimmed;
    ghost var v := gd.Whole();
    Collect(gd);
    ScrollWhole(gd, v);
  }

  // ----- Inserting and deleting lines

  // Clears ny - ny2 lines at py + ny2; when the difference wraps around, the
  // area ends before it begins and nothing is cleared.
  method ClearRest(gd: Grid, py: UInt, ny: UInt, ny2: UInt)
    requires gd.Valid() && py + ny <= gd.sy && py + ny2 <= gd.sy
    modifies gd`linedata
    ensures gd.Valid() && gd.History() == old(gd.History())
    ensures gd.Screen() == if ny2 < ny then ClearedLines(old(gd.Screen()), py + ny2, ny - ny2) else old(gd.Screen())
  {
    hide ClearedLines;
    ClearedNone(gd.linedata, gd.hsize + py + ny2);
    if ny2 < ny { ScreenCleared(gd.linedata, gd.hsize, gd.sy, py + ny2, ny - ny2); }
    gd.Clear(0, gd.hsize + py + ny2, gd.sx, Sub32(ny, ny2));
  }

  // grid_view_insert_lines_region
  method InsertLinesRegion(gd: Grid, rlower: UInt, py: UInt, ny: UInt)
    requires gd.Valid() && rlower < gd.sy && py + ny <= rlower + 1
    modifies gd`linedata
    ensures gd.Valid() && gd.Whole() == View(old(gd.History()), InsertedLines(old(gd.Screen()), rlower, py, ny))
  {
    hide MovedLines, ClearedLines, InsertedLines;
    InsertIsMove(gd.Screen(), rlower, py, ny);
    var ny2 := rlower + 1 - py - ny;
    MoveInScreen(gd, rlower + 1 - ny2, py, ny2);
    ClearRest(gd, py, ny, ny2);
  }

  // grid_view_delete_lines_region
  method DeleteLinesRegion(gd: Grid, rlower: UInt, py: UInt, ny: UInt)
    requires gd.Valid() && rlower < gd.sy && py + ny <= rlower + 1
    modifies gd`linedata
    ensures gd.Valid() && gd.Whole() == View(old(gd.History()), DeletedLines(old(gd.Screen()), rlower, py, ny))
  {
    hide MovedLines, ClearedLines, DeletedLines;
    DeleteIsMove(gd.Screen(), rlower, py, ny);
    var ny2 := rlower + 1 - py - ny;
    MoveInScreen(gd, py, py + ny, ny2);
    ClearRest(gd, py, ny, ny2);
  }

  // grid_view_delete_lines
  method DeleteLines(gd: Grid, py: UInt, ny: UInt)
    requires gd.Valid() && py + ny <= gd.sy
    modifies gd`linedata
    ensures gd.Valid() && gd.Whole() == View(old(gd.History()), DeletedLines(old(gd.Screen()), gd.sy - 1, py, ny))
  {
    hide MovedLines, ClearedLines, DeletedLines;
    DeleteIsMove(gd.Screen(), gd.sy - 1, py, ny);
    MoveInScreen(gd, py, py + ny, gd.sy - py - ny);
    ClearEnd(gd, py, ny);
  }

  // The same clear with the screen's end given: py + ny - (sy - ny) lines.
  method ClearEnd(gd: Grid, py: UInt, ny: UInt)
    requires gd.Valid() && py + ny <= gd.sy
    modifies gd`linedata
    ensures gd.Valid() && gd.History() == old(gd.History())
    ensures var kept := gd.sy - py - ny;
            gd.Screen() == if kept < ny then ClearedLines(old(gd.Screen()), py + kept, ny - kept) else old(gd.Screen())
  {
    hide ClearedLines;
    var y := gd.hsize + py;
    var sy := gd.hsize + gd.sy;
    ClearedNone(gd.linedata, sy - ny);
    if gd.sy - py - ny < ny { ScreenCleared(gd.linedata, gd.hsize, gd.sy, gd.sy - ny, ny - (gd.sy - py - ny)); }
    gd.Clear(0, sy - ny, gd.sx, Sub32(y + ny, sy - ny));
  }

  // grid_view_insert_lines
  method InsertLines(gd: Grid, py: UInt, ny: UInt)
    requires gd.Valid() && py + ny <= gd.sy
    modifies gd`linedata
    ensures gd.Valid() && gd.Whole() == View(old(gd.History()), OpenedLines(old(gd.Screen()), py, ny))
  {
    MoveInScreen(gd, py + ny, py, gd.sy - py - ny);
  }

  /** Inserting below the scroll region only moves lines: of the gap, it clears
      no more than the lines it moved away. */
  function OpenedLines(screen: seq<Line>, py: nat, n: nat): seq<Line>
    requires py + n <= |screen|
  {
    MovedLines(screen, py + n, py, |screen| - py - n)
  }

  /** So it inserts n blank lines exactly when the lines of the gap it does not
      move were blank before. */
  lemma OpenedIsInserted(screen: seq<Line>, py: nat, n: nat)
    requires 1 <= n && py + n <= |screen|
    ensures OpenedLines(screen, py, n) == InsertedLines(screen, |screen| - 1, py, n) <==>
            forall k :: |screen| - n <= k < py + n ==> screen[k] == BLANK
  {
    InsertIsMove(screen, |screen| - 1, py, n);
    var kept := |screen| - py - n;
    var moved := MovedLines(screen, py + n, py, kept);
    assert forall k :: py + kept <= k < py + n ==> moved[k] == screen[k];
    if moved == InsertedLines(screen, |screen| - 1, py, n) && kept < n {
      forall k | py + kept <= k < py + n ensures screen[k] == BLANK {
        assert moved[k] == ClearedLines(moved, py + kept, n - kept)[k];
      }
    }
  }

  /** Three lines with text, two inserted at the first: the second keeps its
      text. */
  lemma InsertLeavesText(a: Line, b: Line, c: Line)
    requires b != BLANK
    ensures OpenedLines([a, b, c], 0, 2) == [BLANK, b, a]
    ensures InsertedLines([a, b, c], 2, 0, 2) == [BLANK, BLANK, a]
  {
    assert [a, b, c][0..1] == [a] && [a, b, c][3..] == [] && [a, b, c][..0] == [];
    assert Blanks(2) == [BLANK, BLANK];
  }

  // ----- Inserting and deleting characters

  /** The columns of a line of sx with n of them gone from px on. */
  ghost predicate ShowsDeleted(r: Line, l: Line, sx: nat, px: nat, n: nat) {
    forall x: nat {:trigger Show(r, x)} :: x < sx ==>
      Show(r, x) == if x < px then Show(l, x) else if x + n < sx then Show(l, x + n) else DEFAULT_GLYPH
  }

  lemma DeletedByMove(r: Line, m: Line, l: Line, sx: nat, px: nat, n: nat)
    requires 1 <= n && px + n <= sx && ShowsMoved(m, l, px, px + n, sx - px - n)
    requires forall x: nat :: x < sx ==> Show(r, x) == if sx - n <= x < px + n then DEFAULT_GLYPH else Show(m, x)
    ensures ShowsDeleted(r, l, sx, px, n)
  {
    hide Show;
  }

  // grid_view_delete_cells. The width of the final clear wraps around when
  // nothing is left to clear.
  method DeleteCells(gd: Grid, px: UInt, py: UInt, nx: UInt)
    requires gd.Valid() && py < gd.sy && 1 <= nx && px + nx <= gd.sx && HasUtf8(gd.Screen()[py])
    modifies gd`linedata
    ensures gd.Valid() && gd.History() == old(gd.History())
    ensures gd.Screen() == old(gd.Screen())[py := gd.Screen()[py]]
    ensures HasUtf8(gd.Screen()[py]) && ShowsDeleted(gd.Screen()[py], old(gd.Screen())[py], gd.sx, px, nx)
  {
    hide HasUtf8, ShowsMoved, ShowsDeleted, Show, ClearedArea, ClearedLines;
    var y := gd.hsize + py;
    ghost var was := gd.linedata;
    gd.MoveCells(px, px + nx, y, gd.sx - px - nx);
    ghost var m := gd.linedata[y];
    ghost var moved := gd.linedata;
    gd.Clear(gd.sx - nx, y, Sub32(px + nx, gd.sx - nx), 1);
    ClearTail(gd.linedata, moved, y, gd.sx, px, nx);
    DeletedByMove(gd.linedata[y], m, was[y], gd.sx, px, nx);
  }

  /** The final clear covers the columns between sx - n and px + n, if any. */
  lemma ClearTail(r: seq<Line>, m: seq<Line>, y: nat, sx: UInt, px: nat, n: nat)
    requires y < |m| && 1 <= n && px + n <= sx && HasUtf8(m[y])
    requires var w := Sub32(px + n, sx - n);
             r == if w == 0 then m
                  else if sx - n == 0 && w == sx then ClearedLines(m, y, 1)
                  else if sx - n + w >= UINT_SIZE then m
                  else ClearedArea(m, sx - n, y, w, 1)
    ensures |r| == |m| && r == m[y := r[y]] && HasUtf8(r[y])
    ensures forall x: nat :: x < sx ==> Show(r[y], x) == if sx - n <= x < px + n then DEFAULT_GLYPH else Show(m[y], x)
  {
    hide Show, HasUtf8, ClearedCells;
    if px + n > sx - n {
      var w := px + n - (sx - n);
      assert Sub32(px + n, sx - n) == w;
      if sx - n == 0 && w == sx {
        assert r[y] == BLANK;
        BlankShows();
        assert r == m[y := r[y]];
      } else {
        assert r[y] == ClearedCells(m[y], sx - n, w);
        ClearedUtf8(m[y], sx - n, w);
        forall x: nat ensures Show(r[y], x) == if sx - n <= x < px + n then DEFAULT_GLYPH else Show(m[y], x) {
          ClearedShows(m[y], sx - n, w, x);
        }
        assert r == m[y := r[y]];
      }
    } else {
      assert r == m == m[y := m[y]];
    }
  }
}
