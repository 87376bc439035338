// Lines of cells and the sequences of lines a grid holds (grid.c).
module GridLines {
  import opened Common

  // ----- u_int

  const UINT_SIZE := 0x1_0000_0000

  type UInt = n: int | 0 <= n < UINT_SIZE

  function Add32(a: UInt, b: UInt): UInt {
    (a + b) % UINT_SIZE
  }

  /** Wraps below zero. */
  function Sub32(a: UInt, b: UInt): UInt {
    (a - b) % UINT_SIZE
  }

  // ----- Cells and lines

  datatype Cell = Cell(
    attr: nat, fg256: bool, bg256: bool, padding: bool, utf8: bool, fg: nat, bg: nat, data: nat)

  // grid_default_cell
  const DEFAULT_CELL := Cell(0, false, false, false, false, 8, 8, 0x20)

  datatype Utf8Cell = Utf8Cell(width: nat, data: seq<nat>)

  /** Cells past the end of `cells` read as default cells. */
  datatype Line = Line(cells: seq<Cell>, utf8: seq<Utf8Cell>, wrapped: bool)

  const BLANK := Line([], [], false)

  // grid_peek_cell on one line
  function Peek(l: Line, x: nat): Cell {
    if x < |l.cells| then l.cells[x] else DEFAULT_CELL
  }

  // grid_peek_utf8 on one line
  function PeekUtf8(l: Line, x: nat): Option<Utf8Cell> {
    if x < |l.utf8| then Some(l.utf8[x]) else None
  }

  /** What a column shows: its cell, with the UTF-8 data if the cell says so. */
  datatype Glyph = Glyph(cell: Cell, utf8: Option<Utf8Cell>)

  const DEFAULT_GLYPH := Glyph(DEFAULT_CELL, None)

  function Show(l: Line, x: nat): Glyph {
    Glyph(Peek(l, x), if Peek(l, x).utf8 then PeekUtf8(l, x) else None)
  }

  /** Every UTF-8 cell has its data. */
  ghost predicate HasUtf8(l: Line) {
    forall x: nat :: Peek(l, x).utf8 ==> x < |l.utf8|
  }

  lemma BlankShows()
    ensures HasUtf8(BLANK) && forall x: nat :: Show(BLANK, x) == DEFAULT_GLYPH
  {}

  // ----- Sequences of lines

  /** ny lines at py blank; nothing if that is not all inside. */
  function ClearedLines(lines: seq<Line>, py: nat, ny: nat): (r: seq<Line>)
    ensures |r| == |lines|
  {
    seq(|lines|, k requires 0 <= k < |lines| => if py <= k < py + ny then BLANK else lines[k])
  }

  /** ny lines moved from py to dy, the lines they leave behind blank. */
  function MovedLines(lines: seq<Line>, dy: nat, py: nat, ny: nat): (r: seq<Line>)
    requires py + ny <= |lines| && dy + ny <= |lines|
    ensures |r| == |lines|
  {
    seq(|lines|, k requires 0 <= k < |lines| =>
      if dy <= k < dy + ny then lines[k - dy + py]
      else if py <= k < py + ny then BLANK
      else lines[k])
  }

  /** The ny lines at py blank except those among the ny lines at dy. */
  function Vacated(lines: seq<Line>, py: nat, dy: nat, ny: nat): (r: seq<Line>)
    ensures |r| == |lines|
  {
    seq(|lines|, k requires 0 <= k < |lines| =>
      if py <= k < py + ny && !(dy <= k < dy + ny) then BLANK else lines[k])
  }

  // memmove of ny lines from py to dy
  function Copied(lines: seq<Line>, dy: nat, py: nat, ny: nat): (r: seq<Line>)
    requires py + ny <= |lines| && dy + ny <= |lines|
    ensures |r| == |lines|
  {
    lines[..dy] + lines[py..py + ny] + lines[dy + ny..]
  }

  /** A move is three steps: free what is replaced, copy, wipe what is left. */
  lemma MovedInSteps(lines: seq<Line>, dy: nat, py: nat, ny: nat)
    requires py + ny <= |lines| && dy + ny <= |lines|
    ensures MovedLines(lines, dy, py, ny) == Vacated(Copied(Vacated(lines, dy, py, ny), dy, py, ny), py, dy, ny)
  {}

  lemma MovedNothing(lines: seq<Line>, dy: nat, py: nat, ny: nat)
    requires py + ny <= |lines| && dy + ny <= |lines| && (ny == 0 || py == dy)
    ensures MovedLines(lines, dy, py, ny) == lines
  {}

  function Blanks(n: nat): (r: seq<Line>)
    ensures |r| == n && forall k :: 0 <= k < n ==> r[k] == BLANK
  {
    seq(n, k => BLANK)
  }

  // ----- One line

  /** nx cells at px cleared as grid_clear does it: a line that ends inside the
      area is cut, otherwise the cells are made default. */
  function ClearedCells(l: Line, px: nat, nx: nat): Line {
    if px >= |l.cells| then l
    else if px + nx >= |l.cells| then l.(cells := l.cells[..px])
    else l.(cells := l.cells[..px] + seq(nx, k => DEFAULT_CELL) + l.cells[px + nx..])
  }

  function ClearedArea(lines: seq<Line>, px: nat, py: nat, nx: nat, ny: nat): (r: seq<Line>)
    ensures |r| == |lines|
  {
    seq(|lines|, k requires 0 <= k < |lines| => if py <= k < py + ny then ClearedCells(lines[k], px, nx) else lines[k])
  }

  // grid_expand_line on one line
  function Expanded(l: Line, n: nat): (r: Line)
    ensures |r.cells| == Max(|l.cells|, n) && r.utf8 == l.utf8
  {
    if n <= |l.cells| then l else l.(cells := l.cells + seq(n - |l.cells|, k => DEFAULT_CELL))
  }

  // UTF-8 data not set yet; what it holds is never read.
  const UNSET := Utf8Cell(0, [])

  // grid_expand_line_utf8 on one line
  function ExpandedUtf8(l: Line, n: nat): (r: Line)
    ensures r.cells == l.cells && |r.utf8| == Max(|l.utf8|, n) && r.utf8[..|l.utf8|] == l.utf8
  {
    if n <= |l.utf8| then l else l.(utf8 := l.utf8 + seq(n - |l.utf8|, k => UNSET))
  }

  function WithUtf8(l: Line, px: nat, gu: Utf8Cell): Line {
    var e := ExpandedUtf8(l, px + 1);
    e.(utf8 := e.utf8[px := gu])
  }

  function WithCell(l: Line, px: nat, gc: Cell): Line {
    var e := Expanded(l, px + 1);
    e.(cells := e.cells[px := gc])
  }

  /** Either way the area reads as default cells and nothing else changes. */
  lemma ClearedShows(l: Line, px: nat, nx: nat, x: nat)
    ensures Show(ClearedCells(l, px, nx), x) == if px <= x < px + nx then DEFAULT_GLYPH else Show(l, x)
    ensures ClearedCells(l, px, nx).utf8 == l.utf8
  {}

  lemma ClearedUtf8(l: Line, px: nat, nx: nat)
    requires HasUtf8(l)
    ensures HasUtf8(ClearedCells(l, px, nx))
  {
    forall x: nat ensures Peek(ClearedCells(l, px, nx), x).utf8 ==> x < |l.utf8| {
      ClearedShows(l, px, nx, x);
    }
  }

  // ----- History and screen

  /** The two parts of a grid's lines. */
  datatype View = View(history: seq<Line>, screen: seq<Line>)

  /** Lines given up when the history is full: a tenth, but at least one. */
  function Dropped(hlimit: nat): nat {
    if hlimit / 10 < 1 then 1 else hlimit / 10
  }

  /** A history that is full loses its oldest lines. */
  function Trimmed(h: seq<Line>, hlimit: nat): seq<Line>
    requires hlimit >= 1 || h != []
  {
    if |h| < hlimit then h else h[Dropped(hlimit)..]
  }

  /** What is kept: all of a history below its limit; of others, all but the
      oldest tenth of the limit, or the oldest line where that is nothing. */
  lemma TrimmedIs(h: seq<Line>, hlimit: nat)
    requires hlimit >= 1 || h != []
    ensures |h| < hlimit ==> Trimmed(h, hlimit) == h
    ensures |h| >= hlimit ==>
              1 <= Max(1, hlimit / 10) <= Max(1, hlimit) <= |h| && Trimmed(h, hlimit) == h[Max(1, hlimit / 10)..]
  {}

  // hsize after grid_collect_history
  function CollectedSize(hsize: UInt, hlimit: UInt): UInt {
    if hsize < hlimit then hsize else Sub32(hsize, Dropped(hlimit))
  }

  /** The size never grows, but for an empty history with a limit of 0: there it
      wraps around. */
  lemma CollectWraps(hsize: UInt, hlimit: UInt)
    ensures CollectedSize(hsize, hlimit) <= hsize <==> hlimit >= 1 || hsize >= 1
    ensures CollectedSize(0, 0) == UINT_SIZE - 1
  {}

  /** Elements px to px + nx of g copied to dx: w is what g began with. */
  lemma CopiedWithin(w: seq<Utf8Cell>, g: seq<Utf8Cell>, dx: nat, px: nat, nx: nat)
    requires dx + nx <= |g| && px + nx <= |g| && |w| <= |g| && g[..|w|] == w
    ensures var r := g[..dx] + g[px..px + nx] + g[dx + nx..];
            && |r| == |g|
            && (forall x :: 0 <= x < |w| && !(dx <= x < dx + nx) ==> r[x] == w[x])
            && (forall x :: dx <= x < dx + nx && x - dx + px < |w| ==> r[x] == w[x - dx + px])
  {
    assert forall x :: 0 <= x < |w| ==> g[x] == g[..|w|][x];
  }

  /** Lines upper to lower of a screen one up, the last of them blank. */
  function RegionUp(screen: seq<Line>, upper: nat, lower: nat): (r: seq<Line>)
    requires upper <= lower < |screen|
    ensures |r| == |screen|
  {
    screen[..upper] + screen[upper + 1..lower + 1] + [BLANK] + screen[lower + 1..]
  }

  function RegionDown(screen: seq<Line>, upper: nat, lower: nat): (r: seq<Line>)
    requires upper <= lower < |screen|
    ensures |r| == |screen|
  {
    screen[..upper] + [BLANK] + screen[upper..lower] + screen[lower + 1..]
  }

  /** One line into the history; with a limit of 0 an empty history stays so,
      as its size wraps around and back. */
  function Recorded(h: seq<Line>, l: Line, hlimit: nat): seq<Line> {
    if hlimit == 0 && h == [] then [] else Trimmed(h, hlimit) + [l]
  }

  /** A history that is empty with a limit of 0 can only scroll whole screens:
      with less the code addresses lines far outside the grid. */
  predicate CanScroll(v: View, upper: nat, lower: nat, hlimit: nat) {
    hlimit >= 1 || v.history != [] || (upper == 0 && lower + 1 == |v.screen|)
  }

  /** One line of the region scrolled off into the history. */
  function ScrolledUp(v: View, upper: nat, lower: nat, hlimit: nat): View
    requires upper <= lower < |v.screen| && CanScroll(v, upper, lower, hlimit)
  {
    View(Recorded(v.history, v.screen[upper], hlimit), RegionUp(v.screen, upper, lower))
  }

  /** n blank lines in front of line py, the last n lines of the region gone. */
  function InsertedLines(screen: seq<Line>, lower: nat, py: nat, n: nat): (r: seq<Line>)
    requires py + n <= lower + 1 <= |screen|
    ensures |r| == |screen|
  {
    screen[..py] + Blanks(n) + screen[py..lower + 1 - n] + screen[lower + 1..]
  }

  /** n lines from py on gone, n blank lines at the end of the region. */
  function DeletedLines(screen: seq<Line>, lower: nat, py: nat, n: nat): (r: seq<Line>)
    requires py + n <= lower + 1 <= |screen|
    ensures |r| == |screen|
  {
    screen[..py] + screen[py + n..lower + 1] + Blanks(n) + screen[lower + 1..]
  }

  /** The columns of `l` with nx of them moved from px to dx, the ones left
      behind default. */
  ghost predicate ShowsMoved(r: Line, l: Line, dx: nat, px: nat, nx: nat) {
    forall x: nat {:trigger Show(r, x)} :: Show(r, x) ==
      if dx <= x < dx + nx then Show(l, x - dx + px)
      else if px <= x < px + nx then DEFAULT_GLYPH
      else Show(l, x)
  }

  predicate PeekMoved(r: Line, l: Line, dx: nat, px: nat, nx: nat, x: nat) {
    Peek(r, x) == if dx <= x < dx + nx then Peek(l, x - dx + px)
                  else if px <= x < px + nx then DEFAULT_CELL
                  else Peek(l, x)
  }

  /** Moving cells is a copy inside the expanded line, then a wipe. */
  lemma MovedPeek(r: Line, l: Line, e: Line, m: Line, dx: nat, px: nat, nx: nat, x: nat)
    requires e == Expanded(Expanded(l, px + nx), dx + nx)
    requires m.cells == e.cells[..dx] + e.cells[px..px + nx] + e.cells[dx + nx..] && |r.cells| == |m.cells|
    requires x < |r.cells| ==>
               r.cells[x] == if px <= x < px + nx && !(dx <= x < dx + nx) then DEFAULT_CELL else m.cells[x]
    ensures PeekMoved(r, l, dx, px, nx, x)
  {
    hide Expanded;
    ExpandedPeek(l, px + nx, x);
    ExpandedPeek(Expanded(l, px + nx), dx + nx, x);
    if dx <= x < dx + nx {
      ExpandedPeek(l, px + nx, x - dx + px);
      ExpandedPeek(Expanded(l, px + nx), dx + nx, x - dx + px);
    }
  }

  lemma ExpandedPeek(l: Line, n: nat, x: nat)
    ensures Peek(Expanded(l, n), x) == Peek(l, x)
  {}

  /** The UTF-8 data moves with the cells. */
  lemma MovedShows(r: Line, l: Line, dx: nat, px: nat, nx: nat)
    requires HasUtf8(l)
    requires forall x: nat :: PeekMoved(r, l, dx, px, nx, x)
    requires l.utf8 == [] ==> r.utf8 == []
    requires l.utf8 != [] ==> |r.utf8| >= px + nx && |r.utf8| >= dx + nx && |r.utf8| >= |l.utf8|
    requires forall x :: 0 <= x < |l.utf8| && !(dx <= x < dx + nx) ==> r.utf8[x] == l.utf8[x]
    requires forall x :: dx <= x < dx + nx && x - dx + px < |l.utf8| ==> r.utf8[x] == l.utf8[x - dx + px]
    ensures HasUtf8(r) && ShowsMoved(r, l, dx, px, nx)
  {
    forall x: nat
      ensures Peek(r, x).utf8 ==> x < |r.utf8|
      ensures Show(r, x) == if dx <= x < dx + nx then Show(l, x - dx + px)
                            else if px <= x < px + nx then DEFAULT_GLYPH
                            else Show(l, x)
    {
      var y: nat := if dx <= x < dx + nx then x - dx + px else x;
      assert Peek(l, y).utf8 ==> y < |l.utf8|;
      assert PeekMoved(r, l, dx, px, nx, x);
      assert Peek(r, x).utf8 ==> x < |r.utf8|;
      if Peek(r, x).utf8 { assert r.utf8[x] == l.utf8[y]; }
    }
  }

  // ----- Steps of the scrolling functions

  /** Shifting all lines up by n drops the oldest n and keeps the screen. */
  lemma ShiftedUp(lines: seq<Line>, hsize: nat, sy: nat, n: nat)
    requires n <= hsize && hsize + sy <= |lines|
    ensures var r := MovedLines(lines, 0, n, hsize + sy - n);
            r[..hsize - n] == lines[..hsize][n..] && r[hsize - n..hsize - n + sy] == lines[hsize..hsize + sy]
  {}

  /** One more blank line at the end moves the screen down by one. */
  lemma OneMore(was: seq<Line>, hsize: nat, sy: nat)
    requires 1 <= sy && hsize + sy <= |was|
    ensures var now := was[..hsize + sy] + [BLANK];
            && now[..hsize + 1] == was[..hsize] + [was[hsize..hsize + sy][0]]
            && now[hsize + 1..hsize + 1 + sy] == was[hsize..hsize + sy][1..] + [BLANK]
  {}

  /** The wrapped case of grid_collect_history: the only line freed is the top
      one of the screen. */
  lemma ShiftedScreen(lines: seq<Line>, sy: nat)
    requires 1 <= sy <= |lines|
    ensures MovedLines(lines, 0, 1, sy - 1)[..sy - 1] == lines[..sy][1..]
  {}

  /** What is left of history and screen when a full history loses its oldest
      lines. */
  lemma FreedLines(lines: seq<Line>, hsize: UInt, sy: UInt, hlimit: UInt)
    requires 1 <= sy && hsize + sy <= |lines| && hsize >= hlimit
    ensures var yy, h := Max(1, hlimit / 10), lines[..hsize];
            yy <= hsize + sy &&
            var r := MovedLines(lines, 0, yy, hsize + sy - yy);
            && (hlimit >= 1 || hsize >= 1 ==>
                  && yy <= hsize && r[..hsize - yy] == h[yy..]
                  && r[hsize - yy..hsize - yy + sy] == lines[hsize..hsize + sy])
            && (hlimit == 0 && hsize == 0 ==> yy == 1 && r[..sy - 1] == lines[hsize..hsize + sy][1..])
  {
    hide MovedLines;
    if hlimit >= 1 || hsize >= 1 {
      ShiftedUp(lines, hsize, sy, Max(1, hlimit / 10));
    } else {
      ShiftedScreen(lines, sy);
    }
  }

  lemma RegionUpAt(screen: seq<Line>, upper: nat, lower: nat, j: nat)
    requires upper <= lower < |screen| && j < |screen|
    ensures RegionUp(screen, upper, lower)[j] ==
            if j < upper || j > lower then screen[j] else if j == lower then BLANK else screen[j + 1]
  {}

  /** The screen one line down, and line u of the result in the space that
      leaves. */
  function ScreenDown(lines: seq<Line>, hsize: nat, sy: nat, u: nat): (r: seq<Line>)
    requires |lines| == hsize + sy + 1 && hsize < u <= hsize + sy
    ensures |r| == |lines|
  {
    var l1 := lines[..hsize + 1] + lines[hsize..hsize + sy];
    l1[hsize := l1[u]]
  }

  /** Lines u + 1 to l one up, line l blank. */
  function LinesUp(lines: seq<Line>, u: nat, l: nat): (r: seq<Line>)
    requires u <= l < |lines|
    ensures |r| == |lines|
  {
    (lines[..u] + lines[u + 1..l + 1] + lines[l..])[l := BLANK]
  }

  /** The array after grid_scroll_history_region, given it with its new line. */
  function RegionScrolled(lines: seq<Line>, hsize: nat, sy: nat, u: nat, l: nat): (r: seq<Line>)
    requires |lines| == hsize + sy + 1 && hsize < u <= l <= hsize + sy
    ensures |r| == |lines|
  {
    LinesUp(ScreenDown(lines, hsize, sy, u), u, l)
  }

  lemma ScreenDownAt(lines: seq<Line>, hsize: nat, sy: nat, u: nat, k: nat)
    requires |lines| == hsize + sy + 1 && hsize < u <= hsize + sy && k < |lines|
    ensures ScreenDown(lines, hsize, sy, u)[k] ==
            if k < hsize then lines[k] else if k == hsize then lines[u - 1] else lines[k - 1]
  {}

  lemma LinesUpAt(lines: seq<Line>, u: nat, l: nat, k: nat)
    requires u <= l < |lines| && k < |lines|
    ensures LinesUp(lines, u, l)[k] == if k < u || k > l then lines[k] else if k == l then BLANK else lines[k + 1]
  {}

  lemma RegionScrolledAt(lines: seq<Line>, hsize: nat, sy: nat, u: nat, l: nat, k: nat)
    requires |lines| == hsize + sy + 1 && hsize < u <= l <= hsize + sy && k < |lines|
    ensures RegionScrolled(lines, hsize, sy, u, l)[k] ==
            if k < hsize then lines[k]
            else if k == hsize then lines[u - 1]
            else if k == l then BLANK
            else if u <= k < l then lines[k]
            else lines[k - 1]
  {
    hide ScreenDown, LinesUp;
    LinesUpAt(ScreenDown(lines, hsize, sy, u), u, l, k);
    ScreenDownAt(lines, hsize, sy, u, k);
    if u <= k < l { ScreenDownAt(lines, hsize, sy, u, k + 1); }
  }

  lemma RegionSteps(lines: seq<Line>, hsize: nat, sy: nat, upper: nat, lower: nat)
    requires |lines| == hsize + sy + 1 && hsize <= upper <= lower < hsize + sy
    ensures var r := RegionScrolled(lines, hsize, sy, upper + 1, lower + 1);
            && r[..hsize + 1] == lines[..hsize] + [lines[upper]]
            && r[hsize + 1..hsize + 1 + sy] == RegionUp(lines[hsize..hsize + sy], upper - hsize, lower - hsize)
  {
    hide RegionUp, RegionScrolled;
    var r := RegionScrolled(lines, hsize, sy, upper + 1, lower + 1);
    forall k | 0 <= k <= hsize ensures r[k] == (lines[..hsize] + [lines[upper]])[k] {
      RegionScrolledAt(lines, hsize, sy, upper + 1, lower + 1, k);
    }
    var screen := lines[hsize..hsize + sy];
    var up := RegionUp(screen, upper - hsize, lower - hsize);
    forall j | 0 <= j < sy ensures r[hsize + 1 + j] == up[j] {
      RegionScrolledAt(lines, hsize, sy, upper + 1, lower + 1, hsize + 1 + j);
      RegionUpAt(screen, upper - hsize, lower - hsize, j);
    }
    assert r[hsize + 1..hsize + 1 + sy] == up;
  }
}
