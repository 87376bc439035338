// What layout_resize makes of a tiled preset, whose root does not know what was
// left of the window for its last row and column.
module LayoutTiledResize {
  import opened Common
  import opened LayoutTree
  import opened LayoutAdjust
  import opened LayoutOffsets
  import opened LayoutPaths
  import opened LayoutPlaced
  import opened LayoutClose
  import opened LayoutSet
  import opened LayoutWindow

  /** A container whose own size is ex columns and ey rows less than what its
      children take up. */
  function Short(u: Tree, ex: int, ey: int): (r: Tree)
    ensures r.Node? == u.Node? && r.sx == u.sx - ex && r.sy == u.sy - ey
  {
    Sized(u, u.sx - ex, u.sy - ey)
  }

  lemma ShortAdjust(u: Tree, ex: int, ey: int, d: Direction, c: int)
    requires u.Node? && Inhabited(u) && c >= -Check(u, d)
    ensures Inhabited(Short(u, ex, ey)) && Check(Short(u, ex, ey), d) == Check(u, d)
    ensures Adjust(Short(u, ex, ey), d, c) == Short(Adjust(u, d, c), ex, ey)
  {
    if u.dir != d {
      AllHaveSpace(u, d);
      assert Adjust(Short(u, ex, ey), d, c).kids == Adjust(u, d, c).kids;
    }
  }

  lemma ShortPut(u: Tree, ex: int, ey: int)
    requires u.Node?
    ensures FixOffsets(Short(u, ex, ey)) == Short(FixOffsets(u), ex, ey)
  {}

  function Missing(d: Direction, ex: int, ey: int): int {
    if d == LeftRight then ex else ey
  }

  /** The change a resize makes to the rows, worked out from the short root. */
  function RowsChange(u: Tree, d: Direction, e: int, was: int, now: int): int {
    var limit := Check(u, d);
    if limit == 0 then (if now <= Size(u, d) - e then 0 else now - (Size(u, d) - e))
    else if now - was < -limit then -limit
    else now - was
  }

  ghost function AxisRows(u: Tree, d: Direction, e: int, was: int, now: int): Tree
    requires Inhabited(u)
  {
    Adjust(u, d, RowsChange(u, d, e, was, now))
  }

  lemma AxisShort(u: Tree, ex: int, ey: int, d: Direction, was: int, now: int)
    requires Sound(u) && u.Node?
    ensures Inhabited(Short(u, ex, ey))
    ensures var r := AxisRows(u, d, Missing(d, ex, ey), was, now);
            && ResizeAxis(Short(u, ex, ey), d, was, now) == Short(r, ex, ey)
            && Sound(r) && r.Node? && Panes(r) == Panes(u)
            && Size(r, Other(d)) == Size(u, Other(d)) && Check(r, Other(d)) == Check(u, Other(d))
  {
    hide Adjust, Check, Tiled, Branching, Positive, Panes;
    var e := Missing(d, ex, ey);
    SoundInhabited(u);
    var c := RowsChange(u, d, e, was, now);
    ShortAdjust(u, ex, ey, d, c);
    AdjustNode(u, d, c);
    AdjustFacts(u, d, c);
    assert Change(Short(u, ex, ey), d, was, now) == c;
  }

  lemma AdjustNode(u: Tree, d: Direction, c: int)
    requires Inhabited(u) && c >= -Check(u, d)
    ensures Adjust(u, d, c).Node? == u.Node?
  {}

  // ----- One resize

  /** A window whose rows are those of u, under a root short of them. */
  ghost predicate Rows(w: Window, u: Tree, ex: int, ey: int) {
    w.root == Short(u, ex, ey) && Sound(u) && u.Node? && Placed(u)
  }

  /** The size along d changed by c, and the space with it. */
  predicate Moves(u: Tree, v: Tree, d: Direction, c: int) {
    && Size(v, d) == Size(u, d) + c
    && (c <= 0 ==> Check(v, d) == Check(u, d) + c)
    && (c >= 0 ==> Check(u, d) <= Check(v, d))
  }

  predicate Follows(w: Window, u: Tree, r: Window, v: Tree, d: Direction, e: int) {
    Moves(u, v, d, RowsChange(u, d, e, Extent(w, d), Extent(r, d)))
  }

  lemma RowsStep(w: Window, u: Tree, ex: int, ey: int, sx: int, sy: int) returns (v: Tree)
    requires Rows(w, u, ex, ey)
    ensures Inhabited(w.root)
    ensures var r := Window(sx, sy, ResizeTree(w, sx, sy));
            && Rows(r, v, ex, ey) && Panes(v) == Panes(u)
            && forall d :: Follows(w, u, r, v, d, Missing(d, ex, ey))
  {
    hide Sound, Adjust, Check, Panes, Put, ResizeAxis, AxisRows;
    AxisShort(u, ex, ey, LeftRight, w.sx, sx);
    AxisMoves(u, LeftRight, ex, w.sx, sx);
    var a := AxisRows(u, LeftRight, ex, w.sx, sx);
    AxisShort(a, ex, ey, TopBottom, w.sy, sy);
    AxisMoves(a, TopBottom, ey, w.sy, sy);
    var b := AxisRows(a, TopBottom, ey, w.sy, sy);
    ShortPut(b, ex, ey);
    v := FixOffsets(b);
    PutKeepsAll(b, b.xoff, b.yoff);
    PutPanes(b, b.xoff, b.yoff);
    PutFits(b, b.xoff, b.yoff, LeftRight);
    PutFits(b, b.xoff, b.yoff, TopBottom);
  }

  lemma AxisMoves(u: Tree, d: Direction, e: int, was: int, now: int)
    requires Sound(u)
    ensures Inhabited(u) && Moves(u, AxisRows(u, d, e, was, now), d, RowsChange(u, d, e, was, now))
  {
    AdjustFacts(u, d, RowsChange(u, d, e, was, now));
  }

  // ----- The window and the rows

  ghost predicate Fills(w: Window, u: Tree, d: Direction) {
    Size(u, d) == Extent(w, d)
  }

  /** The rows cannot be smaller, or are larger than the window by what the root
      is short of. */
  ghost predicate Overruns(w: Window, u: Tree, d: Direction, e: int) {
    Check(u, d) == 0 || Size(u, d) == Extent(w, d) + e
  }

  ghost predicate Known(w: Window, u: Tree, ex: nat, ey: nat) {
    && Rows(w, u, ex, ey)
    && forall d :: Size(u, d) >= Extent(w, d) && (Fills(w, u, d) || Overruns(w, u, d, Missing(d, ex, ey)))
  }

  /** One axis: rows that fill the window do so until there is no space left;
      rows that cannot be smaller overrun it ever after. A window at least as
      large as the rows is filled exactly if and only if it was filled before
      with space left, or the root is not short. */
  lemma AxisKnown(u: Tree, v: Tree, d: Direction, e: nat, was: int, now: int)
    requires Moves(u, v, d, RowsChange(u, d, e, was, now)) && Size(u, d) >= was
    requires Size(u, d) == was || Check(u, d) == 0 || Size(u, d) == was + e
    ensures Size(v, d) >= now
    ensures Size(v, d) == now || Check(v, d) == 0 || Size(v, d) == now + e
    ensures Size(u, d) == was && Check(u, d) > 0 ==> Size(v, d) == now || Check(v, d) == 0
    ensures Check(u, d) == 0 || Size(u, d) == was + e ==> Check(v, d) == 0 || Size(v, d) == now + e
    ensures now >= Size(u, d) ==> (Size(v, d) == now <==> e == 0 || (Size(u, d) == was && Check(u, d) > 0))
  {}

  ghost function Through(w: Window, sizes: seq<(int, int)>): (r: Window)
    requires Inhabited(w.root)
    ensures Inhabited(r.root)
    decreases |sizes|
  {
    if sizes == [] then w
    else
      var (sx, sy) := sizes[0];
      ResizedInhabited(w, sx, sy);
      Through(Window(sx, sy, ResizeTree(w, sx, sy)), sizes[1..])
  }

  lemma ResizedInhabited(w: Window, sx: int, sy: int)
    requires Inhabited(w.root)
    ensures Inhabited(ResizeTree(w, sx, sy))
  {
    hide Adjust, Put;
    AdjustAdjusts(w.root, LeftRight, Change(w.root, LeftRight, w.sx, sx));
    var a := ResizeAxis(w.root, LeftRight, w.sx, sx);
    AdjustAdjusts(a, TopBottom, Change(a, TopBottom, w.sy, sy));
    var b := ResizeAxis(a, TopBottom, w.sy, sy);
    PutKeeps(b, b.xoff, b.yoff);
  }

  lemma KnownStep(w: Window, u: Tree, ex: nat, ey: nat, sx: int, sy: int) returns (v: Tree)
    requires Known(w, u, ex, ey)
    ensures Inhabited(w.root)
    ensures var r := Window(sx, sy, ResizeTree(w, sx, sy));
            && Known(r, v, ex, ey) && Panes(v) == Panes(u)
            && (forall d :: Overruns(w, u, d, Missing(d, ex, ey)) ==> Overruns(r, v, d, Missing(d, ex, ey)))
            && (forall d :: Fills(w, u, d) && Check(u, d) > 0 ==> Fills(r, v, d) || Check(v, d) == 0)
            && forall d :: Extent(r, d) >= Size(u, d) ==>
                 (Fills(r, v, d) <==> Missing(d, ex, ey) == 0 || (Fills(w, u, d) && Check(u, d) > 0))
  {
    hide Sound, Check, Panes, Placed, ResizeTree, RowsChange, Moves;
    v := RowsStep(w, u, ex, ey, sx, sy);
    var r := Window(sx, sy, ResizeTree(w, sx, sy));
    forall d
      ensures Size(v, d) >= Extent(r, d) && (Fills(r, v, d) || Overruns(r, v, d, Missing(d, ex, ey)))
      ensures Overruns(w, u, d, Missing(d, ex, ey)) ==> Overruns(r, v, d, Missing(d, ex, ey))
      ensures Fills(w, u, d) && Check(u, d) > 0 ==> Fills(r, v, d) || Check(v, d) == 0
      ensures Extent(r, d) >= Size(u, d) ==>
                (Fills(r, v, d) <==> Missing(d, ex, ey) == 0 || (Fills(w, u, d) && Check(u, d) > 0))
    {
      assert Fills(w, u, d) || Overruns(w, u, d, Missing(d, ex, ey));
      AxisKnown(u, v, d, Missing(d, ex, ey), Extent(w, d), Extent(r, d));
    }
  }

  // ----- Whole runs

  lemma KnownInhabited(w: Window, u: Tree, ex: nat, ey: nat)
    requires Known(w, u, ex, ey)
    ensures Inhabited(w.root) && forall d :: Check(w.root, d) == Check(u, d)
  {
    hide Adjust;
    forall d ensures Check(w.root, d) == Check(u, d) { ShortAdjust(u, ex, ey, d, 0); }
  }

  lemma {:induction false} KnownRun(w: Window, u: Tree, ex: nat, ey: nat, sizes: seq<(int, int)>) returns (v: Tree)
    requires Known(w, u, ex, ey)
    ensures Inhabited(w.root)
    ensures var r := Through(w, sizes);
            && Known(r, v, ex, ey) && Panes(v) == Panes(u)
            && forall d :: Overruns(w, u, d, Missing(d, ex, ey)) ==> Overruns(r, v, d, Missing(d, ex, ey))
    decreases |sizes|
  {
    hide Known, Overruns, ResizeTree, Panes;
    KnownInhabited(w, u, ex, ey);
    if sizes == [] {
      v := u;
    } else {
      var (sx, sy) := sizes[0];
      var u' := KnownStep(w, u, ex, ey, sx, sy);
      v := KnownRun(Window(sx, sy, ResizeTree(w, sx, sy)), u', ex, ey, sizes[1..]);
    }
  }

  /** What is left over when a window is divided up by the tiled preset. */
  function Leftover(size: nat, n: nat): nat
    requires n >= 1
  {
    (size + 1) % n
  }

  lemma TileKnown(sx: nat, sy: nat, ids: seq<PaneId>, rows: nat, columns: nat)
    requires CanTile(sx, sy, ids, rows, columns)
    ensures var t := Tile(sx, sy, ids, rows, columns);
            && Known(Window(sx, sy, t), Sized(t, sx, sy), Leftover(sx, columns), Leftover(sy, rows))
            && Panes(Sized(t, sx, sy)) == PaneSeq(ids)
            && forall d :: Fills(Window(sx, sy, t), Sized(t, sx, sy), d)
  {
    hide Tile, Sound, Placed;
    TileDivides(sx, sy, ids, rows, columns);
    var t := Tile(sx, sy, ids, rows, columns);
    assert t == Short(Sized(t, sx, sy), Leftover(sx, columns), Leftover(sy, rows));
  }

  /** A tiled window through any run of sizes: rows and panes stay tiled and in
      order and cover the window; on each axis they fill it exactly, or cannot
      be smaller, or overrun it by what the division had left over. Once they
      could not be smaller they never again just fill a larger window, unless
      nothing was left over. */
  lemma TiledRun(sx: nat, sy: nat, ids: seq<PaneId>, rows: nat, columns: nat,
                 sizes: seq<(int, int)>, more: seq<(int, int)>) returns (u: Tree, v: Tree)
    requires CanTile(sx, sy, ids, rows, columns)
    ensures var w := Window(sx, sy, Tile(sx, sy, ids, rows, columns));
            var ex, ey := Leftover(sx, columns), Leftover(sy, rows);
            && Inhabited(w.root)
            && Known(Through(w, sizes), u, ex, ey) && Panes(u) == PaneSeq(ids)
            && Known(Through(Through(w, sizes), more), v, ex, ey) && Panes(v) == PaneSeq(ids)
            && forall d :: Check(u, d) == 0 ==> Overruns(Through(Through(w, sizes), more), v, d, Missing(d, ex, ey))
  {
    hide Known, Tile, Panes;
    TileKnown(sx, sy, ids, rows, columns);
    var w := Window(sx, sy, Tile(sx, sy, ids, rows, columns));
    var ex, ey := Leftover(sx, columns), Leftover(sy, rows);
    u := KnownRun(w, Sized(w.root, sx, sy), ex, ey, sizes);
    v := KnownRun(Through(w, sizes), u, ex, ey, more);
  }

  /** After any run, the next size of the window: rows that fill it go on doing
      so until no space is left, and a window at least as large as the rows is
      filled exactly if and only if nothing was left over or the rows filled it
      before with space to spare. */
  lemma TiledFillsIff(sx: nat, sy: nat, ids: seq<PaneId>, rows: nat, columns: nat,
                      sizes: seq<(int, int)>, sx': int, sy': int) returns (u: Tree, v: Tree)
    requires CanTile(sx, sy, ids, rows, columns)
    ensures var t := Tile(sx, sy, ids, rows, columns);
            var ex, ey := Leftover(sx, columns), Leftover(sy, rows);
            Inhabited(t) &&
            var w := Through(Window(sx, sy, t), sizes);
            var r := Window(sx', sy', ResizeTree(w, sx', sy'));
            && Known(w, u, ex, ey) && Known(r, v, ex, ey)
            && (forall d :: Fills(w, u, d) && Check(u, d) > 0 ==> Fills(r, v, d) || Check(v, d) == 0)
            && forall d :: Extent(r, d) >= Size(u, d) ==>
                 (Fills(r, v, d) <==> Missing(d, ex, ey) == 0 || (Fills(w, u, d) && Check(u, d) > 0))
  {
    hide Known, Tile, Panes, ResizeTree;
    TileKnown(sx, sy, ids, rows, columns);
    var w := Window(sx, sy, Tile(sx, sy, ids, rows, columns));
    var ex, ey := Leftover(sx, columns), Leftover(sy, rows);
    u := KnownRun(w, Sized(w.root, sx, sy), ex, ey, sizes);
    v := KnownStep(Through(w, sizes), u, ex, ey, sx', sy');
  }

  // ----- A root that is short

  // Two panes, one above the other, in a window of 24 rows.
  const TWO_ROWS :=
    Node(TopBottom, 80, 23, 0, 0, [Leaf(80, 11, 0, 0, Some(0)), Leaf(80, 12, 0, 12, Some(1))])

  lemma TwoRows()
    ensures CanTile(80, 24, [0, 1], 2, 1) && Tile(80, 24, [0, 1], 2, 1) == TWO_ROWS
  {
    var a, b := Leaf(80, 11, 0, 0, Some(0)), Leaf(80, 11, 0, 0, Some(1));
    assert [0, 1][..1] == [0] && [0, 1][1..] == [1];
    assert TiledRows([1], 1, 80, 80, 11) == [b];
    assert TiledRows([0, 1], 1, 80, 80, 11) == [a, b];
    assert TileRows(80, 24, [0, 1], 2, 1) == [a, Leaf(80, 12, 0, 0, Some(1))];
  }

  lemma TwoRowsSpace()
    ensures Check(Sized(TWO_ROWS, 80, 24), TopBottom) == 19
  {
    assert Checks(TWO_ROWS.kids, TopBottom) == [9, 10];
    SumPair(9, 10);
  }

  /** The root says 23 rows; shrunk to 5 rows and back to 24 the panes and
      their separator are 25 rows high. */
  lemma TwoRowsOverrun() returns (v: Tree)
    ensures CanTile(80, 24, [0, 1], 2, 1) && Inhabited(Tile(80, 24, [0, 1], 2, 1))
    ensures var t := Tile(80, 24, [0, 1], 2, 1);
            t.sy == 23 && Rows(Through(Window(80, 24, t), [(80, 5), (80, 24)]), v, 0, 1) && v.sy == 25
  {
    hide Tile, Sound, ResizeTree, Check;
    TwoRows();
    TwoRowsSpace();
    TileKnown(80, 24, [0, 1], 2, 1);
    var w, u := Window(80, 24, TWO_ROWS), Sized(TWO_ROWS, 80, 24);
    var x := RowsStep(w, u, 0, 1, 80, 5);
    var w1 := Window(80, 5, ResizeTree(w, 80, 5));
    assert Follows(w, u, w1, x, TopBottom, Missing(TopBottom, 0, 1));
    assert Size(x, TopBottom) == 5 && Check(x, TopBottom) == 0;
    v := RowsStep(w1, x, 0, 1, 80, 24);
    var w2 := Window(80, 24, ResizeTree(w1, 80, 24));
    assert Follows(w1, x, w2, v, TopBottom, Missing(TopBottom, 0, 1));
  }
}
