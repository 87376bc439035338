// The preset layouts that divide a window evenly: even-horizontal,
// even-vertical and tiled (layout-set.c).
module LayoutSet {
  import opened Common
  import opened LayoutTree
  import opened LayoutAdjust
  import opened LayoutOffsets
  import opened LayoutPaths
  import opened LayoutPlaced
  import opened LayoutClose

  // ----- Shares

  /** The size of one of n parts with separators between them; the subtraction
      wraps around in a window smaller than the separators. */
  function Share(size: nat, n: nat): (r: nat)
    requires n >= 1
    ensures r >= PANE_MINIMUM
  {
    var w := ((size - (n - 1)) % (UINT_MAX + 1)) / n;
    if w < PANE_MINIMUM then PANE_MINIMUM else w
  }

  /** The window holds n parts of the smallest size. */
  predicate Holds(size: nat, n: nat) {
    n >= 1 && n * (PANE_MINIMUM + 1) - 1 <= size <= UINT_MAX
  }

  /** Then the parts fit, and less than one more cell for each is left over. */
  lemma ShareFits(size: nat, n: nat)
    requires Holds(size, n)
    ensures var w := Share(size, n);
            n * (w + 1) - 1 <= size < n * (w + 2) - 1
  {
    var w := (size - (n - 1)) / n;
    assert size - (n - 1) >= n * PANE_MINIMUM;
    assert w >= PANE_MINIMUM by { DivAtLeast(size - (n - 1), n, PANE_MINIMUM); }
    assert n * w <= size - (n - 1) < n * w + n;
    assert n * (w + 1) == n * w + n && n * (w + 2) == n * w + 2 * n;
  }

  lemma DivAtLeast(a: nat, n: nat, k: nat)
    requires n >= 1 && a >= n * k
    ensures a / n >= k
  {
    var q := a / n;
    MulKeeps(n, q + 1, k);
    assert n * (q + 1) == n * q + n;
    assert a < n * q + n;
  }

  lemma MulKeeps(n: nat, x: nat, y: nat)
    ensures x <= y ==> n * x <= n * y
  {
    if x <= y { assert n * y == n * x + n * (y - x); }
  }

  // ----- One row of panes

  function Pane(d: Direction, size: int, across: int, at: int, id: PaneId): (r: Tree)
    ensures r.Leaf? && Size(r, d) == size && Size(r, Other(d)) == across && r.wp == Some(id)
  {
    if d == LeftRight then Leaf(size, across, at, 0, Some(id)) else Leaf(across, size, 0, at, Some(id))
  }

  /** A leaf of one size for each pane, each after the last. */
  function Panels(d: Direction, size: int, across: int, at: int, step: int, ids: seq<PaneId>): (r: seq<Tree>)
    ensures |r| == |ids|
    ensures forall i :: 0 <= i < |r| ==>
              r[i].Leaf? && Size(r[i], d) == size && Size(r[i], Other(d)) == across && r[i].wp == Some(ids[i])
    decreases |ids|
  {
    if ids == [] then [] else [Pane(d, size, across, at, ids[0])] + Panels(d, size, across, at + step, step, ids[1..])
  }

  /** What is left of the size goes to the last. */
  function Widened(kids: seq<Tree>, d: Direction, more: int): (r: seq<Tree>)
    ensures |r| == |kids|
  {
    if kids == [] || more <= 0 then kids
    else kids[|kids| - 1 := SetSize(kids[|kids| - 1], d, Size(kids[|kids| - 1], d) + more)]
  }

  /** A row of leaves of `part` along d, the last one widened to `size`. */
  function Row(d: Direction, size: int, across: int, part: int, step: int, ids: seq<PaneId>): (r: seq<Tree>)
    ensures |r| == |ids|
  {
    Widened(Panels(d, part, across, 0, step, ids), d, size - (|ids| * (part + 1) - 1))
  }

  lemma {:induction false} SumSame(s: seq<int>, v: int)
    requires forall i :: 0 <= i < |s| ==> s[i] == v
    ensures Sum(s) == |s| * v
  {
    if s != [] { SumSame(s[1..], v); }
  }

  /** Leaves and separators of a row make up its size. */
  lemma RowFills(d: Direction, size: int, across: int, part: int, step: int, ids: seq<PaneId>)
    requires ids != [] && |ids| * (part + 1) - 1 <= size && part >= 1 && across >= 1
    ensures var r := Row(d, size, across, part, step, ids);
            && Sum(Sizes(r, d)) + |r| - 1 == size
            && (forall k | k in r :: k.Leaf? && Size(k, d) >= part && Size(k, Other(d)) == across)
            && (forall i :: 0 <= i < |r| - 1 ==> Size(r[i], d) == part)
            && Size(r[|r| - 1], d) == part + size - (|ids| * (part + 1) - 1)
            && PanesAll(r) == PaneSeq(ids)
  {
    hide Panels;
    var kids := Panels(d, part, across, 0, step, ids);
    var r := Row(d, size, across, part, step, ids);
    var more := size - (|ids| * (part + 1) - 1);
    SumSame(Sizes(kids, d), part);
    assert |ids| * (part + 1) == |ids| * part + |ids|;
    if more > 0 {
      assert Sizes(r, d) == Sizes(kids, d)[|kids| - 1 := part + more];
      SumUpdate(Sizes(kids, d), |kids| - 1, part + more);
    }
    LeafPanes(r, ids);
  }

  function PaneSeq(ids: seq<PaneId>): (r: seq<Option<PaneId>>)
    ensures |r| == |ids|
  {
    seq(|ids|, i requires 0 <= i < |ids| => Some(ids[i]))
  }

  lemma {:induction false} LeafPanes(kids: seq<Tree>, ids: seq<PaneId>)
    requires |kids| == |ids| && forall i :: 0 <= i < |kids| ==> kids[i].Leaf? && kids[i].wp == Some(ids[i])
    ensures PanesAll(kids) == PaneSeq(ids)
  {
    if kids != [] {
      LeafPanes(kids[1..], ids[1..]);
      assert PaneSeq(ids) == [Some(ids[0])] + PaneSeq(ids[1..]);
    }
  }

  // ----- layout_set_even_h and layout_set_even_v

  function Even(d: Direction, sx: nat, sy: nat, ids: seq<PaneId>): (r: Tree)
    requires |ids| >= 1
    ensures r.Node? && r.dir == d && r.sx == sx && r.sy == sy && r.xoff == 0 && r.yoff == 0
  {
    var size, across := if d == LeftRight then sx else sy, if d == LeftRight then sy else sx;
    var part := Share(size, |ids|);
    Node(d, sx, sy, 0, 0, Row(d, size, across, part, part + 1, ids))
  }

  lemma {:induction false} PanelsPlaced(d: Direction, size: int, across: int, at: int, ids: seq<PaneId>, more: int)
    requires size >= 0 && more >= 0
    ensures PlacedRun(Widened(Panels(d, size, across, at, size + 1, ids), d, more), d,
                      if d == LeftRight then at else 0, if d == LeftRight then 0 else at)
    decreases |ids|
  {
    hide PlacedRun, Widened, Panels;
    if ids == [] {
      NoPanels(d, size, across, at, more);
    } else {
      var rest := Widened(Panels(d, size, across, at + size + 1, size + 1, ids[1..]), d, more);
      var first := Pane(d, if |ids| == 1 then size + more else size, across, at, ids[0]);
      PanelsPlaced(d, size, across, at + size + 1, ids[1..], more);
      WidenedCons(d, size, across, at, ids, more);
      PlacedRunCons(first, rest, d, if d == LeftRight then at else 0, if d == LeftRight then 0 else at);
      if |ids| == 1 { NothingPlaced(d, at + size + more + 1); }
    }
  }

  lemma NoPanels(d: Direction, size: int, across: int, at: int, more: int)
    ensures Widened(Panels(d, size, across, at, size + 1, []), d, more) == []
    ensures forall x, y :: PlacedRun([], d, x, y)
  {}

  lemma NothingPlaced(d: Direction, at: int)
    ensures forall x, y :: PlacedRun([], d, x, y)
  {}

  lemma WidenedCons(d: Direction, size: int, across: int, at: int, ids: seq<PaneId>, more: int)
    requires ids != [] && more >= 0
    ensures var first := Pane(d, if |ids| == 1 then size + more else size, across, at, ids[0]);
            var rest := Widened(Panels(d, size, across, at + size + 1, size + 1, ids[1..]), d, more);
            && Widened(Panels(d, size, across, at, size + 1, ids), d, more) == [first] + rest
            && (|ids| == 1 ==> rest == [])
  {
    hide Panels;
    PanelsCons(d, size, across, at, ids);
    var first := Pane(d, size, across, at, ids[0]);
    var rest := Panels(d, size, across, at + size + 1, size + 1, ids[1..]);
    if |ids| == 1 {
      assert rest == [] && [first] + rest == [first];
    } else {
      WidenedTail(first, rest, d, more);
    }
  }

  lemma PanelsCons(d: Direction, size: int, across: int, at: int, ids: seq<PaneId>)
    requires ids != []
    ensures Panels(d, size, across, at, size + 1, ids)
            == [Pane(d, size, across, at, ids[0])] + Panels(d, size, across, at + size + 1, size + 1, ids[1..])
  {}

  lemma WidenedTail(first: Tree, rest: seq<Tree>, d: Direction, more: int)
    requires rest != []
    ensures Widened([first] + rest, d, more) == [first] + Widened(rest, d, more)
  {}

  /** Where the smallest panes fit, an even layout has the window's size, is
      tiled and placed, has the panes in order, each of the share at least, and
      all but the last of the share exactly; the last is less than one cell for
      each pane larger. */
  lemma EvenDivides(d: Direction, sx: nat, sy: nat, ids: seq<PaneId>)
    requires |ids| >= 2 && sx >= 1 && sy >= 1 && Holds(if d == LeftRight then sx else sy, |ids|)
    ensures var t := Even(d, sx, sy, ids);
            && Sound(t) && Placed(t) && Panes(t) == PaneSeq(ids)
            && var part := Share(Size(t, d), |ids|);
            && (forall i :: 0 <= i < |ids| - 1 ==> Size(t.kids[i], d) == part)
            && part <= Size(t.kids[|ids| - 1], d) < part + |ids|
  {
    hide Share, Row, PlacedRun, Widened, Panels, Sound;
    var t := Even(d, sx, sy, ids);
    var size, across := Size(t, d), Size(t, Other(d));
    var part := Share(size, |ids|);
    ShareFits(size, |ids|);
    assert |ids| * (part + 2) == |ids| * (part + 1) + |ids|;
    RowFills(d, size, across, part, part + 1, ids);
    LeavesSound(t);
    EvenPlaced(d, sx, sy, ids);
  }

  /** A container filled by leaves is sound. */
  lemma LeavesSound(t: Tree)
    requires t.Node? && |t.kids| >= 2 && Sum(Sizes(t.kids, t.dir)) + |t.kids| - 1 == Size(t, t.dir)
    requires forall k | k in t.kids ::
               k.Leaf? && Size(k, t.dir) >= 1 && Size(k, Other(t.dir)) == Size(t, Other(t.dir)) >= 1
    ensures Sound(t)
  {
    assert Inhabited(t) && Branching(t);
    assert Fits(t, t.dir);
    assert Fits(t, Other(t.dir));
    assert Positive(t);
  }

  lemma EvenPlaced(d: Direction, sx: nat, sy: nat, ids: seq<PaneId>)
    requires |ids| >= 1
    requires var size := if d == LeftRight then sx else sy; |ids| * (Share(size, |ids|) + 1) - 1 <= size
    ensures Placed(Even(d, sx, sy, ids))
  {
    hide Share, PlacedRun, Widened, Panels;
    var t := Even(d, sx, sy, ids);
    var part := Share(Size(t, d), |ids|);
    PanelsPlaced(d, part, Size(t, Other(d)), 0, ids, Size(t, d) - (|ids| * (part + 1) - 1));
    PlacedIff(t);
  }

  /** The panes do not fit: the leaves overrun the window by what is missing. */
  lemma EvenOverruns(d: Direction, sx: nat, sy: nat, ids: seq<PaneId>)
    requires |ids| >= 2 && var size := if d == LeftRight then sx else sy;
             |ids| - 1 <= size < |ids| * (PANE_MINIMUM + 1) - 1 && size <= UINT_MAX
    ensures var t := Even(d, sx, sy, ids);
            !Fits(t, d) && Sum(Sizes(t.kids, d)) + |t.kids| - 1 == |ids| * (PANE_MINIMUM + 1) - 1
  {
    hide Panels, Share;
    var t := Even(d, sx, sy, ids);
    var size := Size(t, d);
    ShareSmallest(size, |ids|);
    SumSame(Sizes(t.kids, d), PANE_MINIMUM);
  }

  lemma ShareSmallest(size: nat, n: nat)
    requires n >= 1 && n - 1 <= size < n * (PANE_MINIMUM + 1) - 1 && size <= UINT_MAX
    ensures Share(size, n) == PANE_MINIMUM
  {
    var w := (size - (n - 1)) / n;
    assert size - (n - 1) < n * PANE_MINIMUM;
    DivBelow(size - (n - 1), n, PANE_MINIMUM);
  }

  lemma DivBelow(a: nat, n: nat, k: nat)
    requires n >= 1 && a < n * k
    ensures a / n < k
  {}

  // ----- layout_set_tiled: rows and columns

  /** As square as possible: no row could be left out. */
  predicate Grid(n: nat, rows: nat, columns: nat) {
    1 <= columns <= rows <= columns + 1 && (rows - 1) * columns < n <= rows * columns
  }

  method Dimensions(n: nat) returns (rows: nat, columns: nat)
    requires n >= 2
    ensures Grid(n, rows, columns)
  {
    rows, columns := 1, 1;
    while rows * columns < n
      invariant Grid(n, rows, columns) || (rows == columns >= 1 && rows * columns < n)
      decreases n - rows * columns
    {
      ghost var r, c := rows, columns;
      NextSquare(r, c, n);
      rows := rows + 1;
      if rows * columns < n {
        columns := columns + 1;
      }
    }
  }

  lemma NextSquare(r: nat, c: nat, n: nat)
    requires r * c < n && (Grid(n, r, c) || (r == c >= 1))
    ensures r == c && (r + 1) * c == r * c + c && (r + 1) * (c + 1) == r * c + r + c + 1
    ensures (r + 1) * c >= n ==> Grid(n, r + 1, c)
    ensures (r + 1) * c < n <= (r + 1) * (c + 1) ==> Grid(n, r + 1, c + 1)
  {}

  /** Only one choice of rows and columns is that square. */
  lemma GridUnique(n: nat, r: nat, c: nat, r': nat, c': nat)
    requires Grid(n, r, c) && Grid(n, r', c')
    ensures r == r' && c == c'
  {
    if c < c' {
      GridApart(n, r, c, r', c');
    } else if c' < c {
      GridApart(n, r', c', r, c);
    }
  }

  lemma GridApart(n: nat, r: nat, c: nat, r': nat, c': nat)
    requires Grid(n, r, c) && Grid(n, r', c')
    ensures c >= c'
  {
    if c < c' {
      MulKeeps(c, r, c + 1);
      MulKeeps(c', c' - 1, r' - 1);
      MulKeeps(c + 1, c + 1, c');
      assert (r' - 1) * c' >= (c' - 1) * c';
      assert r * c <= (c + 1) * c;
      MulKeeps(c, c + 1, c');
      MulKeeps(c', c, c' - 1);
    }
  }

  // ----- layout_set_tiled: the tree

  function Chunk(ids: seq<PaneId>, columns: nat): nat {
    Min(columns, |ids|)
  }

  /** One row; a single pane stands for the row itself. */
  function TiledRow(ids: seq<PaneId>, sx: nat, width: nat, height: nat): (r: Tree)
    requires ids != []
    ensures r.sx == sx && r.sy == height
  {
    if |ids| == 1 then Leaf(sx, height, 0, 0, Some(ids[0]))
    else Node(LeftRight, sx, height, 0, 0, Row(LeftRight, sx, height, width, 0, ids))
  }

  function TiledRows(ids: seq<PaneId>, columns: nat, sx: nat, width: nat, height: nat): (r: seq<Tree>)
    requires columns >= 1
    ensures forall i :: 0 <= i < |r| ==> r[i].sx == sx && r[i].sy == height
    ensures ids != [] ==> r != []
    decreases |ids|
  {
    if ids == [] then []
    else
      var k := Chunk(ids, columns);
      [TiledRow(ids[..k], sx, width, height)] + TiledRows(ids[k..], columns, sx, width, height)
  }

  lemma {:induction false} RowCount(ids: seq<PaneId>, rows: nat, columns: nat, sx: nat, width: nat, height: nat)
    requires columns >= 1 && (rows == 0 <==> ids == []) && (rows > 0 ==> (rows - 1) * columns < |ids| <= rows * columns)
    ensures |TiledRows(ids, columns, sx, width, height)| == rows
    decreases |ids|
  {
    if ids != [] {
      var k := Chunk(ids, columns);
      assert (rows - 1) * columns == (rows - 2) * columns + columns;
      assert rows * columns == (rows - 1) * columns + columns;
      if rows == 1 { assert (rows - 1) * columns == 0; }
      if rows > 1 { MulKeeps(columns, 1, rows - 1); assert columns * (rows - 1) == (rows - 1) * columns; }
      RowCount(ids[k..], rows - 1, columns, sx, width, height);
    }
  }

  /** Each row of a window wide enough is filled, with the panes in order. */
  lemma RowSound(ids: seq<PaneId>, sx: nat, width: nat, height: nat)
    requires ids != [] && |ids| * (width + 1) - 1 <= sx && width >= 1 && height >= 1
    ensures Sound(TiledRow(ids, sx, width, height))
    ensures Panes(TiledRow(ids, sx, width, height)) == PaneSeq(ids)
  {
    hide Row, Sound;
    var t := TiledRow(ids, sx, width, height);
    assert |ids| * (width + 1) >= width + 1 by { MulKeeps(width + 1, 1, |ids|); }
    if |ids| == 1 {
      LeafSound(t);
      assert PaneSeq(ids) == [Some(ids[0])];
    } else {
      RowFills(LeftRight, sx, height, width, 0, ids);
      LeavesSound(t);
    }
  }

  lemma LeafSound(t: Tree)
    requires t.Leaf? && t.sx >= 1 && t.sy >= 1
    ensures Sound(t)
  {}

  lemma {:induction false} RowsSound(ids: seq<PaneId>, columns: nat, sx: nat, width: nat, height: nat)
    requires columns >= 1 && columns * (width + 1) - 1 <= sx && width >= 1 && height >= 1
    ensures var r := TiledRows(ids, columns, sx, width, height);
            (forall k | k in r :: Sound(k) && k.sx == sx && k.sy == height) && PanesAll(r) == PaneSeq(ids)
    decreases |ids|
  {
    hide Sound, TiledRow, Panes;
    if ids == [] {
      assert PaneSeq(ids) == [];
    } else {
      var k := Chunk(ids, columns);
      MulKeeps(width + 1, k, columns);
      assert k * (width + 1) <= columns * (width + 1);
      RowSound(ids[..k], sx, width, height);
      RowsSound(ids[k..], columns, sx, width, height);
      assert PaneSeq(ids) == PaneSeq(ids[..k]) + PaneSeq(ids[k..]);
    }
  }

  /** The rows, the last one made higher by what is left of the window. */
  ghost function FittedRows(rows: seq<Tree>, more: int): (r: seq<Tree>)
    requires rows != [] && Inhabited(rows[|rows| - 1])
    ensures |r| == |rows|
  {
    if more <= 0 then rows else rows[|rows| - 1 := Adjust(rows[|rows| - 1], TopBottom, more)]
  }

  ghost predicate CanTile(sx: nat, sy: nat, ids: seq<PaneId>, rows: nat, columns: nat) {
    |ids| >= 2 && Grid(|ids|, rows, columns) && Holds(sx, columns) && Holds(sy, rows)
  }

  lemma {:induction false} RowsInhabited(ids: seq<PaneId>, columns: nat, sx: nat, width: nat, height: nat)
    requires columns >= 1
    ensures forall k | k in TiledRows(ids, columns, sx, width, height) :: Inhabited(k)
    decreases |ids|
  {
    hide Row;
    if ids != [] {
      var n := Chunk(ids, columns);
      RowInhabited(ids[..n], sx, width, height);
      RowsInhabited(ids[n..], columns, sx, width, height);
    }
  }

  lemma RowInhabited(ids: seq<PaneId>, sx: nat, width: nat, height: nat)
    requires ids != []
    ensures Inhabited(TiledRow(ids, sx, width, height))
  {
    var kids := Row(LeftRight, sx, height, width, 0, ids);
    forall k | k in kids ensures Inhabited(k) { assert k.Leaf?; }
  }

  lemma TiledInhabited(sx: nat, sy: nat, ids: seq<PaneId>, rows: nat, columns: nat)
    requires |ids| >= 2 && Grid(|ids|, rows, columns)
    ensures var r := TiledRows(ids, columns, sx, Share(sx, columns), Share(sy, rows));
            |r| == rows && forall k | k in r :: Inhabited(k)
  {
    hide Share;
    RowCount(ids, rows, columns, sx, Share(sx, columns), Share(sy, rows));
    RowsInhabited(ids, columns, sx, Share(sx, columns), Share(sy, rows));
  }

  /** What the tree is before it is placed. */
  ghost function TileRows(sx: nat, sy: nat, ids: seq<PaneId>, rows: nat, columns: nat): (r: seq<Tree>)
    requires |ids| >= 2 && Grid(|ids|, rows, columns)
  {
    TiledInhabited(sx, sy, ids, rows, columns);
    var width, height := Share(sx, columns), Share(sy, rows);
    FittedRows(TiledRows(ids, columns, sx, width, height), sy - (rows * height + rows - 1))
  }

  ghost function Tile(sx: nat, sy: nat, ids: seq<PaneId>, rows: nat, columns: nat): (r: Tree)
    requires |ids| >= 2 && Grid(|ids|, rows, columns)
    ensures r.Node? && r.dir == TopBottom
  {
    var width, height := Share(sx, columns), Share(sy, rows);
    var kids := TileRows(sx, sy, ids, rows, columns);
    FixOffsets(Node(TopBottom, (width + 1) * columns - 1, (height + 1) * rows - 1, 0, 0, kids))
  }

  lemma {:induction false} FittedSizes(rows: seq<Tree>, more: nat, height: nat, sx: nat)
    requires rows != [] && Inhabited(rows[|rows| - 1])
    requires forall k | k in rows :: Sound(k) && k.sx == sx && k.sy == height
    ensures var r := FittedRows(rows, more);
            && (forall k | k in r :: Sound(k) && k.sx == sx)
            && Sum(Sizes(r, TopBottom)) == |rows| * height + more
            && PanesAll(r) == PanesAll(rows)
  {
    hide Sound, Adjust, Panes, PanesAll, Check;
    SumSame(Sizes(rows, TopBottom), height);
    if more > 0 {
      var n := |rows| - 1;
      var last := rows[n];
      assert last in rows;
      SoundTiled(last);
      AdjustFacts(last, TopBottom, more);
      var k := Adjust(last, TopBottom, more);
      SoundFrom(last, k);
      assert Sizes(rows[n := k], TopBottom) == Sizes(rows, TopBottom)[n := height + more];
      SumUpdate(Sizes(rows, TopBottom), n, height + more);
      PanesAllUpdate(rows, n, k);
    }
  }

  lemma SoundTiled(t: Tree)
    requires Sound(t)
    ensures Tiled(t) && Inhabited(t) && Check(t, TopBottom) >= 0
  {}

  lemma SoundFrom(t: Tree, r: Tree)
    requires Sound(t) && Tiled(r) && (Branching(t) ==> Branching(r)) && (Positive(t) ==> Positive(r))
    ensures Sound(r)
  {}

  /** In a window that holds the smallest panes every row is sound and as wide
      as the window, rows and separators make up its height, and the panes are
      in order. */
  lemma {:induction false} TileFills(sx: nat, sy: nat, ids: seq<PaneId>, rows: nat, columns: nat)
    requires CanTile(sx, sy, ids, rows, columns)
    ensures var r := TileRows(sx, sy, ids, rows, columns);
            && |r| == rows && (forall k | k in r :: Sound(k) && k.sx == sx)
            && Sum(Sizes(r, TopBottom)) + rows - 1 == sy
            && PanesAll(r) == PaneSeq(ids)
  {
    hide Share, Sound, Grid, TiledRows, FittedRows, Inhabited;
    var width, height := Share(sx, columns), Share(sy, rows);
    ShareFits(sx, columns);
    ShareFits(sy, rows);
    TiledInhabited(sx, sy, ids, rows, columns);
    RowsSound(ids, columns, sx, width, height);
    assert rows * (height + 1) == rows * height + rows;
    FittedSizes(TiledRows(ids, columns, sx, width, height), sy - (rows * height + rows - 1), height, sx);
  }

  /** The same tree with other sizes of its own. */
  function Sized(t: Tree, sx: int, sy: int): (r: Tree)
    ensures r.Node? == t.Node? && r.sx == sx && r.sy == sy
  {
    t.(sx := sx, sy := sy)
  }

  /** The same of the placed tree. Its root keeps the sizes from before what is
      left over was given away, so on each axis it is short of that much: it is
      tiled as a whole exactly if nothing was left on either. */
  lemma TileDivides(sx: nat, sy: nat, ids: seq<PaneId>, rows: nat, columns: nat)
    requires CanTile(sx, sy, ids, rows, columns)
    ensures var t := Tile(sx, sy, ids, rows, columns);
            && |t.kids| == rows && (forall k | k in t.kids :: Sound(k) && k.sx == sx)
            && Sum(Sizes(t.kids, TopBottom)) + rows - 1 == sy
            && Panes(t) == PaneSeq(ids) && Placed(t)
            && (Sound(t) <==> t.sx == sx && t.sy == sy)
            && t.sx == sx - (sx + 1) % columns && t.sy == sy - (sy + 1) % rows
            && Sound(Sized(t, sx, sy)) && Placed(Sized(t, sx, sy))
  {
    hide Share, Sound, Adjust, FittedRows, TiledRows, PutAll, Panes, PanesAll;
    var width, height := Share(sx, columns), Share(sy, rows);
    var kids := TileRows(sx, sy, ids, rows, columns);
    TileFills(sx, sy, ids, rows, columns);
    var u := Node(TopBottom, (width + 1) * columns - 1, (height + 1) * rows - 1, 0, 0, kids);
    var t := Tile(sx, sy, ids, rows, columns);
    assert t == FixOffsets(u);
    PlacedRows(u);
    ShareExact(sx, columns);
    ShareExact(sy, rows);
    RootSound(t, sx, sy);
    RootSound(Sized(t, sx, sy), sx, sy);
    PutSizes(t, sx, sy);
  }

  lemma PutSizes(t: Tree, sx: int, sy: int)
    requires t.Node?
    ensures Placed(Sized(t, sx, sy)) <==> Placed(t)
  {}

  lemma PlacedRows(u: Tree)
    requires u.Node? && forall k | k in u.kids :: Sound(k)
    ensures var t := FixOffsets(u);
            && t.Node? && t.dir == u.dir && t.sx == u.sx && t.sy == u.sy && |t.kids| == |u.kids| && Placed(t)
            && Sizes(t.kids, TopBottom) == Sizes(u.kids, TopBottom)
            && Panes(t) == PanesAll(u.kids)
            && forall i :: 0 <= i < |u.kids| ==> Sound(t.kids[i]) && t.kids[i].sx == u.kids[i].sx
  {
    hide Sound, Panes, PanesAll;
    var t := FixOffsets(u);
    PutPanes(u, u.xoff, u.yoff);
    PutTwice(u, u.xoff, u.yoff, u.xoff, u.yoff);
    PanesHere(u);
    forall i | 0 <= i < |u.kids| ensures Sound(t.kids[i]) {
      PutKid(u.kids, u.dir, u.xoff, u.yoff, i);
      assert u.kids[i] in u.kids;
      PutKeepsAll(u.kids[i], t.kids[i].xoff, t.kids[i].yoff);
    }
  }

  lemma PanesHere(u: Tree)
    requires u.Node?
    ensures Panes(u) == PanesAll(u.kids)
  {}

  lemma {:induction false} PutKid(kids: seq<Tree>, dir: Direction, x: int, y: int, i: nat)
    requires i < |kids|
    ensures var k := PutAll(kids, dir, x, y)[i]; k == Put(kids[i], k.xoff, k.yoff)
  {
    if i > 0 { PutKid(kids[1..], dir, NextX(dir, x, kids[0]), NextY(dir, y, kids[0]), i - 1); }
  }

  lemma ShareExact(size: nat, n: nat)
    requires Holds(size, n)
    ensures (Share(size, n) + 1) * n - 1 == size - (size + 1) % n
  {
    ShareFits(size, n);
    var w := Share(size, n);
    assert n * (w + 1) == (w + 1) * n && n * (w + 2) == (w + 1) * n + n;
    MultipleLeaves(w + 1, n, size + 1 - (w + 1) * n);
  }

  lemma MultipleLeaves(q: nat, n: nat, r: nat)
    requires r < n
    ensures (q * n + r) % n == r
  {
    var a := q * n + r;
    assert n * q == q * n && n * (q + 1) == q * n + n;
    DivAtLeast(a, n, q);
    DivBelow(a, n, q + 1);
    assert a == n * (a / n) + a % n;
  }

  lemma RootSound(t: Tree, sx: nat, sy: nat)
    requires t.Node? && t.dir == TopBottom && |t.kids| >= 2
    requires forall i :: 0 <= i < |t.kids| ==> Sound(t.kids[i]) && t.kids[i].sx == sx
    requires Sum(Sizes(t.kids, TopBottom)) + |t.kids| - 1 == sy
    ensures Sound(t) <==> t.sx == sx && t.sy == sy
  {
    assert Fits(t, LeftRight) ==> t.sx == sx by { assert t.kids[0] in t.kids; }
    assert Fits(t, TopBottom) ==> t.sy == sy;
    if t.sx == sx && t.sy == sy {
      assert Fits(t, LeftRight) && Fits(t, TopBottom);
      assert Inhabited(t) && Branching(t) && Positive(t);
    }
  }

  // ----- Which pane is where

  /** The panes of row k: `columns` of them, in the last row what is left. */
  function RowPanes(ids: seq<PaneId>, columns: nat, k: nat): seq<PaneId>
    requires k * columns <= |ids|
  {
    ids[k * columns..Min(|ids|, k * columns + columns)]
  }

  lemma {:induction false} RowAt(ids: seq<PaneId>, columns: nat, sx: nat, width: nat, height: nat, k: nat)
    requires columns >= 1 && k < |TiledRows(ids, columns, sx, width, height)|
    ensures k * columns < |ids|
    ensures TiledRows(ids, columns, sx, width, height)[k] == TiledRow(RowPanes(ids, columns, k), sx, width, height)
    decreases |ids|
  {
    hide TiledRow;
    var n := Chunk(ids, columns);
    if k == 0 {
      assert 0 * columns == 0;
    } else {
      RowAt(ids[n..], columns, sx, width, height, k - 1);
      assert k * columns == (k - 1) * columns + columns;
      assert n == columns;
      assert ids[n..][(k - 1) * columns..Min(|ids| - n, (k - 1) * columns + columns)] == RowPanes(ids, columns, k);
    }
  }

  /** A row of the tiled layout: a single pane, or panes side by side of which
      all but the last are `width` wide. */
  ghost predicate IsRowOf(row: Tree, mine: seq<PaneId>, width: int) {
    && mine != [] && Panes(row) == PaneSeq(mine)
    && (|mine| == 1 ==> row.Leaf?)
    && (|mine| > 1 ==>
          && row.Node? && row.dir == LeftRight && |row.kids| == |mine|
          && (forall j :: 0 <= j < |mine| ==> row.kids[j].Leaf?)
          && forall j :: 0 <= j < |mine| - 1 ==> row.kids[j].sx == width)
  }

  lemma RowIs(ids: seq<PaneId>, sx: nat, width: nat, height: nat)
    requires ids != [] && |ids| * (width + 1) - 1 <= sx && width >= 1 && height >= 1
    ensures IsRowOf(TiledRow(ids, sx, width, height), ids, width)
  {
    hide Row, Sound, Panes;
    RowSound(ids, sx, width, height);
    if |ids| > 1 {
      RowFills(LeftRight, sx, height, width, 0, ids);
      var kids := Row(LeftRight, sx, height, width, 0, ids);
      forall j | 0 <= j < |kids| ensures kids[j].Leaf? { assert kids[j] in kids; }
    }
  }

  lemma RowTaller(row: Tree, mine: seq<PaneId>, width: int, more: nat)
    requires IsRowOf(row, mine, width) && Sound(row)
    ensures Inhabited(row) && more >= -Check(row, TopBottom)
    ensures IsRowOf(Adjust(row, TopBottom, more), mine, width)
  {
    hide Panes;
    SoundTiled(row);
    AdjustFacts(row, TopBottom, more);
  }

  lemma RowPlaced(row: Tree, mine: seq<PaneId>, width: int, x: int, y: int)
    requires IsRowOf(row, mine, width)
    ensures IsRowOf(Put(row, x, y), mine, width) && Put(row, x, y).sy == row.sy
  {
    hide Panes;
    PutPanes(row, x, y);
    if row.Node? {
      forall j | 0 <= j < |row.kids| ensures Put(row, x, y).kids[j].Leaf? {
        var a, b := PutAllAt(row.kids, row.dir, x, y, j);
      }
    }
  }

  /** The panes fill the grid row by row, and all rows but the last, and all
      panes of a row but the last, have the same size. */
  lemma TileGrid(sx: nat, sy: nat, ids: seq<PaneId>, rows: nat, columns: nat, k: nat)
    requires CanTile(sx, sy, ids, rows, columns) && k < rows
    ensures k * columns <= |ids|
    ensures var t := Tile(sx, sy, ids, rows, columns);
            && k < |t.kids| && IsRowOf(t.kids[k], RowPanes(ids, columns, k), (sx - (columns - 1)) / columns)
            && (k < rows - 1 ==> t.kids[k].sy == (sy - (rows - 1)) / rows)
  {
    hide Share, Sound, Adjust, TiledRows, TiledRow, Put, PutAll, Panes, IsRowOf, Inhabited;
    var width, height := Share(sx, columns), Share(sy, rows);
    ShareIs(sx, columns);
    ShareIs(sy, rows);
    ShareFits(sx, columns);
    TiledInhabited(sx, sy, ids, rows, columns);
    RowsSound(ids, columns, sx, width, height);
    var all := TiledRows(ids, columns, sx, width, height);
    RowAt(ids, columns, sx, width, height, k);
    var mine := RowPanes(ids, columns, k);
    MulKeeps(width + 1, |mine|, columns);
    assert (width + 1) * |mine| == |mine| * (width + 1) && (width + 1) * columns == columns * (width + 1);
    RowIs(mine, sx, width, height);
    assert all[k] in all;
    var more := sy - (rows * height + rows - 1);
    if k == rows - 1 && more > 0 { RowTaller(all[k], mine, width, more); }
    var kids := TileRows(sx, sy, ids, rows, columns);
    var x, y := PutAllAt(kids, TopBottom, 0, 0, k);
    FixedKids(width, height, rows, columns, kids);
    RowPlaced(kids[k], mine, width, x, y);
  }

  lemma ShareIs(size: nat, n: nat)
    requires Holds(size, n)
    ensures Share(size, n) == (size - (n - 1)) / n >= 2
  {
    DivAtLeast(size - (n - 1), n, PANE_MINIMUM);
  }

  lemma FixedKids(width: nat, height: nat, rows: nat, columns: nat, kids: seq<Tree>)
    ensures FixOffsets(Node(TopBottom, (width + 1) * columns - 1, (height + 1) * rows - 1, 0, 0, kids)).kids
            == PutAll(kids, TopBottom, 0, 0)
  {}
}
