// The grid of one screen: history followed by the visible lines, in one array
// of lines (grid.c), and the operations on visible lines (grid-view.c).
module GridData {
  import opened Common
  import opened GridLines

  class Grid {
    var historyOn: bool
    var sx: UInt
    var sy: UInt
    var hsize: UInt
    var hlimit: UInt
    // At least hsize + sy lines; xrealloc may leave more.
    var linedata: seq<Line>

    ghost predicate Valid()
      reads this
    {
      sx >= 1 && sy >= 1 && hsize + sy < UINT_SIZE && hsize + sy <= |linedata|
    }

    ghost function History(): seq<Line>
      reads this
      requires Valid()
    {
      linedata[..hsize]
    }

    ghost function Screen(): (r: seq<Line>)
      reads this
      requires Valid()
      ensures |r| == sy
    {
      linedata[hsize..hsize + sy]
    }

    // grid_create
    constructor (sx: UInt, sy: UInt, hlimit: UInt)
      requires sx >= 1 && sy >= 1
      ensures Valid() && History() == [] && Screen() == Blanks(sy) && historyOn
      ensures this.sx == sx && this.sy == sy && this.hlimit == hlimit
    {
      this.sx, this.sy, this.hlimit := sx, sy, hlimit;
      historyOn, hsize := true, 0;
      linedata := seq(sy, k => BLANK);
    }

    // grid_check_y
    method CheckY(py: UInt) returns (ok: bool)
      requires Valid()
      ensures ok <==> py < hsize + sy
    {
      ok := py < Add32(hsize, sy);
    }

    // xrealloc of linedata: new lines hold anything.
    method Realloc(n: UInt)
      modifies this`linedata
      ensures |linedata| == n
      ensures forall k :: 0 <= k < n && k < |old(linedata)| ==> linedata[k] == old(linedata)[k]
    {
      if n <= |linedata| {
        linedata := linedata[..n];
      } else {
        var any: Line := *;
        linedata := linedata + seq(n - |linedata|, k => any);
      }
    }

    // grid_clear_lines. An area that does not fit changes nothing, also when
    // py + ny wraps around.
    method ClearLines(py: UInt, ny: UInt)
      requires Valid()
      modifies this`linedata
      ensures Valid() && linedata == if py + ny <= hsize + sy then ClearedLines(old(linedata), py, ny) else old(linedata)
    {
      if ny == 0 {
        assert linedata == ClearedLines(linedata, py, ny);
        return;
      }
      var ok := CheckY(py);
      if !ok {
        return;
      }
      ok := CheckY(Sub32(Add32(py, ny), 1));
      if !ok {
        return;
      }
      var yy := py;
      while yy < Add32(py, ny)
        invariant py <= yy && (py + ny < UINT_SIZE ==> yy <= py + ny)
        invariant py + ny >= UINT_SIZE ==> yy == py
        invariant |linedata| == |old(linedata)|
        invariant forall k :: 0 <= k < |linedata| ==> linedata[k] == if py <= k < yy then BLANK else old(linedata)[k]
      {
        linedata := linedata[yy := BLANK];
        yy := yy + 1;
      }
      if py + ny < UINT_SIZE {
        assert linedata == ClearedLines(old(linedata), py, ny);
      } else {
        assert linedata == old(linedata);
      }
    }

    // Both ends of an area.
    method Inside(py: UInt, ny: UInt) returns (ok: bool)
      requires Valid() && 0 < ny && py + ny <= UINT_SIZE
      ensures ok <==> py + ny <= hsize + sy
    {
      ok := CheckY(py);
      if ok {
        ok := CheckY(Sub32(Add32(py, ny), 1));
      }
    }

    // grid_move_lines
    method MoveLines(dy: UInt, py: UInt, ny: UInt)
      requires Valid() && py + ny <= UINT_SIZE && dy + ny <= UINT_SIZE
      modifies this`linedata
      ensures Valid()
      ensures linedata == if py + ny <= hsize + sy && dy + ny <= hsize + sy then MovedLines(old(linedata), dy, py, ny)
                          else old(linedata)
    {
      hide Vacated, MovedLines, Copied;
      if ny == 0 || py == dy {
        if py + ny <= hsize + sy && dy + ny <= hsize + sy { MovedNothing(linedata, dy, py, ny); }
        return;
      }
      var ok := Inside(py, ny);
      if !ok {
        return;
      }
      ok := Inside(dy, ny);
      if !ok {
        return;
      }
      MovedInSteps(linedata, dy, py, ny);
      ClearOutside(dy, py, ny);
      // memmove
      Copy(dy, py, ny);
      ClearOutside(py, dy, ny);
    }

    method Copy(dy: UInt, py: UInt, ny: UInt)
      requires Valid() && py + ny <= hsize + sy && dy + ny <= hsize + sy
      modifies this`linedata
      ensures Valid() && linedata == Copied(old(linedata), dy, py, ny)
    {
      linedata := linedata[..dy] + linedata[py..py + ny] + linedata[dy + ny..];
    }

    // Blank the ny lines at py that are not among the ny lines at dy.
    method ClearOutside(py: UInt, dy: UInt, ny: UInt)
      requires Valid() && py + ny <= hsize + sy && dy + ny <= hsize + sy
      modifies this`linedata
      ensures Valid() && linedata == Vacated(old(linedata), py, dy, ny)
    {
      var yy := py;
      while yy < Add32(py, ny)
        invariant py <= yy <= py + ny && Valid() && |linedata| == |old(linedata)|
        invariant forall k :: 0 <= k < |linedata| ==>
                    linedata[k] == if py <= k < yy && !(dy <= k < dy + ny) then BLANK else old(linedata)[k]
      {
        if !(yy >= dy && yy < Add32(dy, ny)) {
          ghost var was := linedata;
          ClearLines(yy, 1);
          assert forall k :: 0 <= k < |linedata| ==> linedata[k] == if k == yy then BLANK else was[k];
        }
        yy := yy + 1;
      }
      assert linedata == Vacated(old(linedata), py, dy, ny);
    }

    // ----- Cells

    // grid_expand_line
    method ExpandLine(py: UInt, n: UInt)
      requires Valid() && py < hsize + sy
      modifies this`linedata
      ensures Valid() && linedata == old(linedata)[py := Expanded(old(linedata)[py], n)]
    {
      var gl := linedata[py];
      if n <= |gl.cells| {
        assert linedata == linedata[py := gl];
        return;
      }
      var cells := gl.cells;
      var xx := |gl.cells|;
      while xx < n
        invariant |gl.cells| <= xx == |cells| <= n
        invariant forall k :: 0 <= k < xx ==> cells[k] == if k < |gl.cells| then gl.cells[k] else DEFAULT_CELL
      {
        cells := cells + [DEFAULT_CELL];
        xx := xx + 1;
      }
      assert cells == Expanded(gl, n).cells;
      linedata := linedata[py := gl.(cells := cells)];
    }

    // grid_expand_line_utf8
    method ExpandLineUtf8(py: UInt, n: UInt)
      requires Valid() && py < hsize + sy
      modifies this`linedata
      ensures Valid() && linedata == old(linedata)[py := ExpandedUtf8(old(linedata)[py], n)]
    {
      var gl := linedata[py];
      if n <= |gl.utf8| {
        assert linedata == linedata[py := gl];
        return;
      }
      linedata := linedata[py := gl.(utf8 := gl.utf8 + seq(n - |gl.utf8|, k => UNSET))];
    }

    // grid_set_utf8
    method SetUtf8(px: UInt, py: UInt, gu: Utf8Cell)
      requires Valid() && px < UINT_SIZE - 1
      modifies this`linedata
      ensures Valid()
      ensures linedata == if py < hsize + sy then old(linedata)[py := WithUtf8(old(linedata)[py], px, gu)]
                          else old(linedata)
    {
      var ok := CheckY(py);
      if !ok {
        return;
      }
      ExpandLineUtf8(py, px + 1);
      var gl := linedata[py];
      linedata := linedata[py := gl.(utf8 := gl.utf8[px := gu])];
    }

    // grid_peek_cell
    method PeekCell(px: UInt, py: UInt) returns (gc: Cell)
      requires Valid()
      ensures gc == if py < hsize + sy then Peek(linedata[py], px) else DEFAULT_CELL
    {
      var ok := CheckY(py);
      if !ok || px >= |linedata[py].cells| {
        return DEFAULT_CELL;
      }
      return linedata[py].cells[px];
    }

    // grid_set_cell
    method SetCell(px: UInt, py: UInt, gc: Cell)
      requires Valid() && px < UINT_SIZE - 1
      modifies this`linedata
      ensures Valid()
      ensures linedata == if py < hsize + sy then old(linedata)[py := WithCell(old(linedata)[py], px, gc)]
                          else old(linedata)
    {
      var ok := CheckY(py);
      if !ok {
        return;
      }
      ExpandLine(py, px + 1);
      var gl := linedata[py];
      linedata := linedata[py := gl.(cells := gl.cells[px := gc])];
    }

    // grid_clear
    method Clear(px: UInt, py: UInt, nx: UInt, ny: UInt)
      requires Valid()
      modifies this`linedata
      ensures Valid()
      ensures linedata ==
              if nx == 0 || py + ny > hsize + sy then old(linedata)
              else if px == 0 && nx == sx then ClearedLines(old(linedata), py, ny)
              else if px + nx >= UINT_SIZE then old(linedata)
              else ClearedArea(old(linedata), px, py, nx, ny)
    {
      hide ClearedCells;
      if nx == 0 || ny == 0 {
        assert ny == 0 && py <= |linedata| ==> linedata == ClearedLines(linedata, py, ny) == ClearedArea(linedata, px, py, nx, ny);
        return;
      }
      if px == 0 && nx == sx {
        ClearLines(py, ny);
        return;
      }
      var ok := CheckY(py);
      if !ok {
        return;
      }
      ok := CheckY(Sub32(Add32(py, ny), 1));
      if !ok {
        return;
      }
      ClearRows(px, py, nx, ny);
    }

    // The outer loop; none of its turns is taken if py + ny wraps around.
    method ClearRows(px: UInt, py: UInt, nx: UInt, ny: UInt)
      requires Valid() && 0 < ny && py < hsize + sy && Sub32(Add32(py, ny), 1) < hsize + sy
      modifies this`linedata
      ensures Valid()
      ensures linedata == if py + ny < UINT_SIZE && px + nx < UINT_SIZE then ClearedArea(old(linedata), px, py, nx, ny)
                          else old(linedata)
    {
      hide ClearedCells;
      var yy := py;
      while yy < Add32(py, ny)
        invariant Valid() && |linedata| == |old(linedata)|
        invariant py <= yy && (py + ny < UINT_SIZE ==> yy <= py + ny)
        invariant py + ny >= UINT_SIZE ==> yy == py
        invariant forall k :: 0 <= k < |linedata| ==>
                    linedata[k] == if py <= k < yy && px + nx < UINT_SIZE then ClearedCells(old(linedata)[k], px, nx)
                                   else old(linedata)[k]
      {
        ClearInLine(yy, px, nx);
        yy := yy + 1;
      }
      if py + ny < UINT_SIZE && px + nx < UINT_SIZE {
        assert linedata == ClearedArea(old(linedata), px, py, nx, ny);
      } else {
        assert linedata == old(linedata);
      }
    }

    // One turn of the outer loop.
    method ClearInLine(yy: UInt, px: UInt, nx: UInt)
      requires Valid() && yy < hsize + sy
      modifies this`linedata
      ensures Valid()
      ensures linedata == if px + nx < UINT_SIZE
                          then old(linedata)[yy := ClearedCells(old(linedata)[yy], px, nx)]
                          else old(linedata)
    {
      var gl := linedata[yy];
      if px >= |gl.cells| {
        assert linedata == linedata[yy := gl];
        return;
      }
      if Add32(px, nx) >= |gl.cells| {
        linedata := linedata[yy := gl.(cells := gl.cells[..px])];
        return;
      }
      var cells := gl.cells;
      var xx := px;
      while xx < Add32(px, nx)
        invariant px <= xx <= |cells| == |gl.cells| && (px + nx < UINT_SIZE ==> xx <= px + nx)
        invariant px + nx >= UINT_SIZE ==> xx == px
        invariant forall k :: 0 <= k < |cells| ==> cells[k] == if px <= k < xx then DEFAULT_CELL else gl.cells[k]
      {
        if xx >= |gl.cells| {
          break;
        }
        cells := cells[xx := DEFAULT_CELL];
        xx := xx + 1;
      }
      linedata := linedata[yy := gl.(cells := cells)];
      if px + nx < UINT_SIZE {
        assert cells == ClearedCells(gl, px, nx).cells;
      } else {
        assert cells == gl.cells;
        assert linedata == old(linedata);
      }
    }

    // grid_move_cells
    method MoveCells(dx: UInt, px: UInt, py: UInt, nx: UInt)
      requires Valid() && px + nx < UINT_SIZE && dx + nx < UINT_SIZE
      requires py < hsize + sy ==> HasUtf8(linedata[py])
      modifies this`linedata
      ensures Valid()
      ensures nx == 0 || px == dx || py >= hsize + sy ==> linedata == old(linedata)
      ensures py < hsize + sy ==>
                && linedata == old(linedata)[py := linedata[py]]
                && HasUtf8(linedata[py]) && ShowsMoved(linedata[py], old(linedata)[py], dx, px, nx)
                && linedata[py].wrapped == old(linedata)[py].wrapped
    {
      if nx == 0 || px == dx {
        return;
      }
      var ok := CheckY(py);
      if !ok {
        return;
      }
      hide Expanded, HasUtf8, ShowsMoved, PeekMoved;
      ghost var l := linedata[py];
      ExpandLine(py, px + nx);
      ExpandLine(py, dx + nx);
      ghost var e := linedata[py];
      // memmove
      var gl := linedata[py];
      linedata := linedata[py := gl.(cells := gl.cells[..dx] + gl.cells[px..px + nx] + gl.cells[dx + nx..])];
      MoveUtf8(dx, px, py, nx);
      ghost var m := linedata[py];
      WipeCells(py, px, nx, dx);
      forall x: nat
        ensures PeekMoved(linedata[py], l, dx, px, nx, x)
      {
        MovedPeek(linedata[py], l, e, m, dx, px, nx, x);
      }
      MovedShows(linedata[py], l, dx, px, nx);
    }

    // The UTF-8 data of the cells, if the line has any.
    method MoveUtf8(dx: UInt, px: UInt, py: UInt, nx: UInt)
      requires Valid() && px + nx < UINT_SIZE && dx + nx < UINT_SIZE && py < hsize + sy
      modifies this`linedata
      ensures Valid() && linedata == old(linedata)[py := linedata[py]]
      ensures var r, l := linedata[py], old(linedata)[py];
              && r == l.(utf8 := r.utf8)
              && (l.utf8 == [] ==> r.utf8 == [])
              && (l.utf8 != [] ==> |r.utf8| >= px + nx && |r.utf8| >= dx + nx && |r.utf8| >= |l.utf8|)
              && (forall x :: 0 <= x < |l.utf8| && !(dx <= x < dx + nx) ==> r.utf8[x] == l.utf8[x])
              && (forall x :: dx <= x < dx + nx && x - dx + px < |l.utf8| ==> r.utf8[x] == l.utf8[x - dx + px])
    {
      ghost var was := linedata[py].utf8;
      if linedata[py].utf8 == [] {
        return;
      }
      ExpandLineUtf8(py, px + nx);
      ghost var once := linedata[py].utf8;
      ExpandLineUtf8(py, dx + nx);
      var gu := linedata[py].utf8;
      assert gu[..|was|] == was by { assert gu[..|once|][..|was|] == gu[..|was|]; }
      CopiedWithin(was, gu, dx, px, nx);
      linedata := linedata[py := linedata[py].(utf8 := gu[..dx] + gu[px..px + nx] + gu[dx + nx..])];
    }

    // Default cells where the moved ones were, unless others came there.
    method WipeCells(py: UInt, px: UInt, nx: UInt, dx: UInt)
      requires Valid() && py < hsize + sy && px + nx < UINT_SIZE && dx + nx < UINT_SIZE
      requires px + nx <= |linedata[py].cells|
      modifies this`linedata
      ensures Valid() && linedata == old(linedata)[py := linedata[py]]
      ensures var l, was := linedata[py], old(linedata)[py];
              && l == was.(cells := l.cells) && |l.cells| == |was.cells|
              && forall x :: 0 <= x < |l.cells| ==>
                   l.cells[x] == if px <= x < px + nx && !(dx <= x < dx + nx) then DEFAULT_CELL else was.cells[x]
    {
      var gl := linedata[py];
      var cells := gl.cells;
      var xx := px;
      while xx < Add32(px, nx)
        invariant px <= xx <= px + nx && |cells| == |gl.cells|
        invariant forall x :: 0 <= x < |cells| ==>
                    cells[x] == if px <= x < xx && !(dx <= x < dx + nx) then DEFAULT_CELL else gl.cells[x]
      {
        if !(xx >= dx && xx < Add32(dx, nx)) {
          cells := cells[xx := DEFAULT_CELL];
        }
        xx := xx + 1;
      }
      linedata := linedata[py := gl.(cells := cells)];
    }

    // ----- History

    ghost function Whole(): View
      reads this
      requires Valid()
    {
      View(History(), Screen())
    }

    /** After a collection from an empty history with a limit of 0 the size of
        the history is -1, and the screen is short of its last line. */
    ghost predicate Wrapped()
      reads this
    {
      sx >= 1 && sy >= 1 && hsize == UINT_SIZE - 1 && sy - 1 <= |linedata|
    }

    // grid_collect_history
    method CollectHistory()
      requires Valid()
      modifies this`linedata, this`hsize
      ensures hsize == CollectedSize(old(hsize), hlimit)
      ensures hlimit >= 1 || old(hsize) >= 1 ==>
                && Valid() && Screen() == old(Screen()) && hsize <= old(hsize)
                && History() == if old(hsize) < hlimit then old(History()) else old(History())[Max(1, hlimit / 10)..]
      ensures hlimit == 0 && old(hsize) == 0 ==> Wrapped() && linedata[..sy - 1] == old(Screen())[1..]
    {
      hide MovedLines;
      if hsize < hlimit {
        return;
      }
      var yy := hlimit / 10;
      if yy < 1 {
        yy := 1;
      }
      FreedLines(linedata, hsize, sy, hlimit);
      ghost var was := hsize;
      FreeOldest(yy);
      assert hsize == if yy <= was then was - yy else UINT_SIZE - 1;
    }

    // The top lines go and the others move up.
    method FreeOldest(yy: UInt)
      requires Valid() && yy <= hsize + sy
      modifies this`linedata, this`hsize
      ensures hsize == Sub32(old(hsize), yy) && |linedata| == |old(linedata)|
      ensures linedata == MovedLines(old(linedata), 0, yy, old(hsize) + sy - yy)
    {
      hide MovedLines;
      MoveLines(0, yy, Sub32(Add32(hsize, sy), yy));
      hsize := Sub32(hsize, yy);
    }

    // One more line, blank, after the first yy.
    method AddBlank(yy: UInt)
      requires yy <= |linedata| && yy + 1 < UINT_SIZE
      modifies this`linedata
      ensures linedata == old(linedata)[..yy] + [BLANK]
    {
      Realloc(yy + 1);
      linedata := linedata[yy := BLANK];
    }

    // grid_scroll_history
    method ScrollHistory()
      requires Wrapped() || (Valid() && hsize + sy + 1 < UINT_SIZE)
      modifies this`linedata, this`hsize
      ensures Valid() && hsize == Add32(old(hsize), 1)
      ensures old(Valid()) ==>
                History() == old(History()) + [old(Screen())[0]] && Screen() == old(Screen())[1..] + [BLANK]
      ensures old(Wrapped()) ==> History() == [] && Screen() == old(linedata)[..sy - 1] + [BLANK]
    {
      ghost var was := linedata;
      AddBlank(Add32(hsize, sy));
      if hsize + sy < UINT_SIZE { OneMore(was, hsize, sy); }
      hsize := Add32(hsize, 1);
    }

    // grid_scroll_history_region; the region is given in absolute lines.
    method ScrollHistoryRegion(upper: UInt, lower: UInt)
      requires Valid() && hsize + sy + 1 < UINT_SIZE && hsize <= upper <= lower < hsize + sy
      modifies this`linedata, this`hsize
      ensures Valid() && History() == old(History()) + [old(Screen())[upper - old(hsize)]]
      ensures Screen() == RegionUp(old(Screen()), upper - old(hsize), lower - old(hsize))
    {
      hide RegionUp, RegionScrolled;
      ghost var was := linedata;
      var yy := hsize + sy;
      Realloc(yy + 1);
      ghost var wide := linedata;
      assert wide[..hsize] == was[..hsize] && wide[hsize..yy] == was[hsize..yy];
      RegionSteps(wide, hsize, sy, upper, lower);
      ScrollInArray(upper, lower);
      assert linedata[..hsize] == was[..hsize - 1] + [was[upper]];
    }

    method ScrollInArray(upper: UInt, lower: UInt)
      requires hsize + sy + 1 < UINT_SIZE && |linedata| == hsize + sy + 1 && hsize <= upper <= lower < hsize + sy
      modifies this`linedata, this`hsize
      ensures hsize == old(hsize) + 1
      ensures linedata == RegionScrolled(old(linedata), old(hsize), sy, upper + 1, lower + 1)
    {
      hide ScreenDown, LinesUp;
      var u, l := upper + 1, lower + 1;
      MoveScreenDown(u);
      MoveLinesUp(u, l);
      hsize := hsize + 1;
    }

    method MoveScreenDown(u: UInt)
      requires hsize + sy + 1 < UINT_SIZE && |linedata| == hsize + sy + 1 && hsize < u <= hsize + sy
      modifies this`linedata
      ensures linedata == ScreenDown(old(linedata), hsize, sy, u)
    {
      // The visible lines one down; line u of the result takes the gap.
      linedata := linedata[..hsize + 1] + linedata[hsize..hsize + sy];
      linedata := linedata[hsize := linedata[u]];
    }

    // Lines u + 1 to l one up, then line l blank.
    method MoveLinesUp(u: UInt, l: UInt)
      requires u <= l < |linedata|
      modifies this`linedata
      ensures linedata == LinesUp(old(linedata), u, l)
    {
      linedata := linedata[..u] + linedata[u + 1..l + 1] + linedata[l..];
      linedata := linedata[l := BLANK];
    }
  }
}
