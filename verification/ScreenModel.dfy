// One screen as a value: its lines, cursor and scroll region, and what the
// writing operations do to them (screen-write.c, wrap mode on, insert mode off).
module ScreenModel {
  import opened Common
  import opened GridLines
  import opened GridView

  datatype Screen = Screen(
    v: View, sx: UInt, hlimit: UInt, historyOn: bool, cx: UInt, cy: nat, rupper: nat, rlower: nat)

  function Height(s: Screen): nat {
    |s.v.screen|
  }

  /** A scroll region of more than one line, unless the screen has only one. */
  predicate Valid(s: Screen) {
    && s.sx >= 1 && 1 <= Height(s) < UINT_SIZE
    && s.cy < Height(s) && s.rupper <= s.rlower < Height(s)
    && (s.rupper < s.rlower || Height(s) == 1)
  }

  /** A valid screen of the same size and with the same history settings. */
  predicate SameKind(r: Screen, s: Screen) {
    Valid(r) && r.sx == s.sx && r.hlimit == s.hlimit && r.historyOn == s.historyOn && Height(r) == Height(s)
  }

  // A character to write: UTF-8 data for a UTF-8 cell.
  datatype Char = Char(cell: Cell, utf8: Utf8Cell)

  function Width(c: Char): nat {
    if c.cell.utf8 then c.utf8.width else 1
  }

  datatype Op =
    | Linefeed(wrapped: bool)
    | CarriageReturn
    | ReverseIndex
    | InsertLine(n: UInt)
    | DeleteLine(n: UInt)
    | ScrollRegion(upper: UInt, lower: UInt)
    | CursorMove(x: UInt, y: UInt)
    | CursorUp(n: UInt)
    | CursorDown(n: UInt)
    | CursorLeft(n: UInt)
    | CursorRight(n: UInt)
    | ClearLine
    | ClearScreen
    | WriteCell(c: Char)

  /** The next line can be fed: at the end of the region that scrolls it. */
  predicate Feeds(s: Screen) {
    s.historyOn && s.cy == s.rlower ==> CanScroll(s.v, s.rupper, s.rlower, s.hlimit)
  }

  predicate WrapsFor(s: Screen, c: Char) {
    !c.cell.padding && s.cx > s.sx - Width(c)
  }

  // Widths other than 1 and 2 are not part of this model.
  predicate Enabled(s: Screen, op: Op) {
    match op
    case Linefeed(_) => Feeds(s)
    case WriteCell(c) =>
      1 <= Width(c) <= 2 <= s.sx && s.cx < UINT_SIZE - 2 && (WrapsFor(s, c) ==> Feeds(s))
    case _ => true
  }

  // ----- Scrolling

  function SetLine(s: Screen, l: Line): (r: Screen)
    requires Valid(s)
    ensures SameKind(r, s)
  {
    s.(v := s.v.(screen := s.v.screen[s.cy := l]))
  }

  lemma SetLineTwice(s: Screen, a: Line, b: Line)
    requires Valid(s)
    ensures SetLine(SetLine(s, a), b) == SetLine(s, b) && SetLine(s, a).v.screen[s.cy] == a
    ensures SetLine(s, s.v.screen[s.cy]) == s
    ensures SetLine(s, a).cx == s.cx && SetLine(s, a).cy == s.cy && SetLine(s, a).sx == s.sx
  {
    assert s.v.screen[s.cy := a][s.cy := b] == s.v.screen[s.cy := b];
    assert s.v.screen[s.cy := s.v.screen[s.cy]] == s.v.screen;
  }

  /** The scroll region one line up; without history the top line is lost. */
  function ScrollUp(s: Screen): (r: Screen)
    requires Valid(s) && (s.historyOn ==> CanScroll(s.v, s.rupper, s.rlower, s.hlimit))
    ensures SameKind(r, s)
  {
    if s.historyOn then s.(v := ScrolledUp(s.v, s.rupper, s.rlower, s.hlimit))
    else if s.rupper < s.rlower then s.(v := s.v.(screen := RegionUp(s.v.screen, s.rupper, s.rlower)))
    else s
  }

  // screen_write_linefeed
  function Fed(s: Screen, wrapped: bool): (r: Screen)
    requires Valid(s) && Feeds(s)
    ensures SameKind(r, s)
  {
    var t := SetLine(s, s.v.screen[s.cy].(wrapped := wrapped));
    if s.cy == s.rlower then ScrollUp(t)
    else if s.cy < Height(s) - 1 then t.(cy := s.cy + 1)
    else t
  }

  // ----- Writing a character

  /** Padding from x back to the character it belongs to, and that character,
      made default. */
  function ClearBack(l: Line, x: nat): Line
    decreases x
  {
    if x > 0 && Peek(l, x).padding then ClearBack(WithCell(l, x, DEFAULT_CELL), x - 1)
    else WithCell(l, x, DEFAULT_CELL)
  }

  /** Padding from x on made default. */
  function ClearAhead(l: Line, x: nat, sx: nat): Line
    decreases sx - x
  {
    if x < sx && Peek(l, x).padding then ClearAhead(WithCell(l, x, DEFAULT_CELL), x + 1, sx) else l
  }

  // screen_write_overwrite
  function Overwritten(l: Line, x: nat, width: nat, sx: nat): Line {
    ClearAhead(if Peek(l, x).padding then ClearBack(l, x) else l, x + width, sx)
  }

  function Padded(l: Line, x: nat): Line {
    WithCell(l, x, Peek(l, x).(padding := true))
  }

  function Written(l: Line, x: nat, c: Char, sx: nat): Line {
    var o := Overwritten(l, x, Width(c), sx);
    var p := if Width(c) == 2 then Padded(o, x + 1) else o;
    var w := WithCell(p, x, c.cell);
    if c.cell.utf8 then WithUtf8(w, x, c.utf8) else w
  }

  // screen_write_cell
  function WrittenCell(s: Screen, c: Char): (r: Screen)
    requires Valid(s) && Enabled(s, WriteCell(c))
    ensures SameKind(r, s)
  {
    if c.cell.padding then s
    else
      var t := if WrapsFor(s, c) then Fed(s, true).(cx := 0) else s;
      SetLine(t, Written(t.v.screen[t.cy], t.cx, c, t.sx)).(cx := t.cx + Width(c))
  }

  // ----- Steps

  function AtLeastOne(n: UInt): UInt {
    if n == 0 then 1 else n
  }

  predicate InRegion(s: Screen) {
    s.rupper <= s.cy <= s.rlower
  }

  // screen_write_reverseindex
  function Reversed(s: Screen): (r: Screen)
    requires Valid(s)
    ensures SameKind(r, s)
  {
    if s.cy == s.rupper then
      if s.rupper < s.rlower then s.(v := s.v.(screen := RegionDown(s.v.screen, s.rupper, s.rlower))) else s
    else if s.cy > 0 then s.(cy := s.cy - 1)
    else s
  }

  // screen_write_insertline
  function LinesInserted(s: Screen, n: UInt): (r: Screen)
    requires Valid(s)
    ensures SameKind(r, s)
  {
    var m := AtLeastOne(n);
    s.(v := s.v.(screen :=
      if InRegion(s) then InsertedLines(s.v.screen, s.rlower, s.cy, Min(m, s.rlower + 1 - s.cy))
      else OpenedLines(s.v.screen, s.cy, Min(m, Height(s) - s.cy))))
  }

  // screen_write_deleteline
  function LinesDeleted(s: Screen, n: UInt): (r: Screen)
    requires Valid(s)
    ensures SameKind(r, s)
  {
    var lower := if InRegion(s) then s.rlower else Height(s) - 1;
    s.(v := s.v.(screen := DeletedLines(s.v.screen, lower, s.cy, Min(AtLeastOne(n), lower + 1 - s.cy))))
  }

  // screen_write_clearscreen
  function ScreenCleared(s: Screen): (r: Screen)
    requires Valid(s)
    ensures SameKind(r, s)
  {
    s.(v := if s.historyOn then ScrolledAway(s.v, LastUsed(s.v.screen), s.hlimit)
            else s.v.(screen := Blanks(Height(s))))
  }

  // screen_write_scrollregion
  function RegionSet(s: Screen, u: UInt, l: UInt): (r: Screen)
    requires Valid(s)
    ensures SameKind(r, s)
  {
    var upper, lower := Min(u, Height(s) - 1), Min(l, Height(s) - 1);
    if upper >= lower then s else s.(cx := 0, cy := 0, rupper := upper, rlower := lower)
  }

  // The cursor moves; only within the scroll region if the cursor is in it.
  function CursorStep(s: Screen, op: Op): (r: Screen)
    requires Valid(s)
    ensures SameKind(r, s) && r.v == s.v && r.rupper == s.rupper && r.rlower == s.rlower
  {
    match op
    case CarriageReturn => s.(cx := 0)
    case CursorMove(x, y) => s.(cx := Min(x, s.sx - 1), cy := Min(y, Height(s) - 1))
    case CursorUp(n) =>
      s.(cy := s.cy - Min(AtLeastOne(n), if s.cy < s.rupper then s.cy else s.cy - s.rupper))
    case CursorDown(n) =>
      s.(cy := s.cy + Min(AtLeastOne(n), if s.cy > s.rlower then Height(s) - 1 - s.cy else s.rlower - s.cy))
    case CursorLeft(n) => s.(cx := s.cx - Min(AtLeastOne(n), s.cx))
    case CursorRight(n) => s.(cx := Add32(s.cx, Min(AtLeastOne(n), Sub32(s.sx - 1, s.cx))))
    case _ => s
  }

  function Step(s: Screen, op: Op): (r: Screen)
    requires Valid(s) && Enabled(s, op)
    ensures SameKind(r, s)
  {
    match op
    case Linefeed(wrapped) => Fed(s, wrapped)
    case ReverseIndex => Reversed(s)
    case InsertLine(n) => LinesInserted(s, n)
    case DeleteLine(n) => LinesDeleted(s, n)
    case ScrollRegion(u, l) => RegionSet(s, u, l)
    case ClearLine => SetLine(s, BLANK)
    case ClearScreen => ScreenCleared(s)
    case WriteCell(c) => WrittenCell(s, c)
    case _ => CursorStep(s, op)
  }

  // ----- Height changes (screen_resize_y)

  /** Lines go from the bottom until the cursor is reached, then from the top,
      into the history if it is on. */
  function Shrunk(s: Screen, sy: nat): (r: Screen)
    requires Valid(s) && 1 <= sy < Height(s)
    ensures Valid(r) && Height(r) == sy && r.sx == s.sx && r.historyOn == s.historyOn && r.hlimit == s.hlimit
  {
    var needed := Height(s) - sy;
    var top := needed - Min(Height(s) - 1 - s.cy, needed);
    s.(v := View(if s.historyOn then s.v.history + s.v.screen[..top] else s.v.history, s.v.screen[top..top + sy]),
       cy := s.cy - top, rupper := 0, rlower := sy - 1)
  }

  /** Lines come back from the history if it is on, then blank ones are added. */
  function Grown(s: Screen, sy: nat): (r: Screen)
    requires Valid(s) && Height(s) < sy < UINT_SIZE
    ensures Valid(r) && Height(r) == sy && r.sx == s.sx && r.historyOn == s.historyOn && r.hlimit == s.hlimit
  {
    var needed := sy - Height(s);
    var back := if s.historyOn then Min(|s.v.history|, needed) else 0;
    var keep := |s.v.history| - back;
    s.(v := View(s.v.history[..keep], s.v.history[keep..] + s.v.screen + Blanks(needed - back)),
       cy := s.cy + back, rupper := 0, rlower := sy - 1)
  }

  function Resized(s: Screen, sy: nat): (r: Screen)
    requires Valid(s) && 1 <= sy < UINT_SIZE
    ensures Valid(r) && Height(r) == sy && r.sx == s.sx && r.historyOn == s.historyOn && r.hlimit == s.hlimit
  {
    if sy < Height(s) then Shrunk(s, sy) else if sy > Height(s) then Grown(s, sy) else s
  }

  // ----- Lines and margins

  /** Deleting as many lines as were just inserted brings back what was there,
      but for the lines pushed out of the region: those are blank. */
  lemma InsertThenDelete(s: Screen, n: UInt)
    requires Valid(s) && InRegion(s)
    ensures var m, was := Min(AtLeastOne(n), s.rlower + 1 - s.cy), s.v.screen;
            Step(Step(s, InsertLine(n)), DeleteLine(n)) ==
            s.(v := s.v.(screen := was[..s.rlower + 1 - m] + Blanks(m) + was[s.rlower + 1..]))
  {
    hide InsertedLines, DeletedLines, OpenedLines;
    InsertedThenDeleted(s.v.screen, s.rlower, s.cy, Min(AtLeastOne(n), s.rlower + 1 - s.cy));
  }

  lemma InsertedThenDeleted(was: seq<Line>, lower: nat, py: nat, m: nat)
    requires py + m <= lower + 1 <= |was|
    ensures DeletedLines(InsertedLines(was, lower, py, m), lower, py, m)
            == was[..lower + 1 - m] + Blanks(m) + was[lower + 1..]
  {
    var mid := InsertedLines(was, lower, py, m);
    assert mid[..py] == was[..py];
    assert mid[py + m..lower + 1] == was[py..lower + 1 - m];
    assert mid[lower + 1..] == was[lower + 1..];
    assert was[..py] + was[py..lower + 1 - m] == was[..lower + 1 - m];
  }

  /** Moving up and down never crosses a margin from inside the region. */
  lemma MarginsHold(s: Screen, op: Op)
    requires Valid(s) && (op.CursorUp? || op.CursorDown?)
    ensures s.rupper <= s.cy ==> s.rupper <= Step(s, op).cy
    ensures s.cy <= s.rlower ==> Step(s, op).cy <= s.rlower
  {}

  // ----- The column after the last

  /** The difference to the last column wraps around in the column after it, so
      a move right from there goes past the screen; from any column of the
      screen it stays on it. */
  lemma CursorRightLeaves(s: Screen, n: UInt)
    requires Valid(s) && s.cx <= s.sx && s.sx + AtLeastOne(n) < UINT_SIZE
    ensures Step(s, CursorRight(n)).cx <= s.sx <==> s.cx < s.sx
    ensures s.cx < s.sx ==> Step(s, CursorRight(n)).cx < s.sx
  {}
}
