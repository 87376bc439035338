// layout_set_even_h, layout_set_even_v and layout_set_tiled building linked
// cells, proved against the trees of LayoutSet.
module LayoutSetCells {
  import opened Common
  import opened LayoutTree
  import opened LayoutAdjust
  import opened LayoutCells
  import opened LayoutShapes
  import LayoutOffsets
  import S = LayoutSet

  function Ids(panes: seq<Pane>): (r: seq<PaneId>)
    ensures |r| == |panes| && forall i :: 0 <= i < |r| ==> r[i] == panes[i].id
  {
    seq(|panes|, i requires 0 <= i < |panes| => panes[i].id)
  }

  // How much each of n parts gets.
  method ComputeShare(size: nat, n: nat) returns (w: nat)
    requires n >= 1
    ensures w == S.Share(size, n)
  {
    w := ((size - (n - 1)) % (UINT_MAX + 1)) / n;
    if w < PANE_MINIMUM {
      w := PANE_MINIMUM;
    }
  }

  // layout_create_cell, layout_set_size and layout_make_leaf
  method NewLeaf(parent: Cell?, sx: int, sy: int, xoff: int, yoff: int, wp: Pane) returns (c: Cell)
    modifies wp`layoutCell
    ensures fresh(c) && wp.layoutCell == c && c.wp == wp && c.kind == WindowPane && c.cells == []
    ensures Linked(LeafShape(c), parent) && Distinct(LeafShape(c)) && Cells(LeafShape(c)) == {c}
    ensures TreeOf(LeafShape(c)) == Leaf(sx, sy, xoff, yoff, Some(wp.id))
  {
    c := new Cell(parent);
    c.sx, c.sy, c.xoff, c.yoff := sx, sy, xoff, yoff;
    wp.layoutCell := c;
    c.wp := wp;
    LeafShapeFacts(c);
  }

  /** With these trees built and the panes from i on to come the result is
      `all`. */
  ghost predicate Completing(
    trees: seq<Tree>, d: Direction, size: int, across: int, at: int, step: int, ids: seq<PaneId>, i: nat, all: seq<Tree>)
  {
    i <= |ids| && trees + S.Panels(d, size, across, at, step, ids[i..]) == all
  }

  lemma CompletingStart(d: Direction, size: int, across: int, step: int, ids: seq<PaneId>)
    ensures Completing([], d, size, across, 0, step, ids, 0, S.Panels(d, size, across, 0, step, ids))
  {
    assert ids[0..] == ids;
  }

  lemma CompletingStep(
    trees: seq<Tree>, d: Direction, size: int, across: int, at: int, step: int, ids: seq<PaneId>, i: nat, all: seq<Tree>)
    requires Completing(trees, d, size, across, at, step, ids, i, all)
    ensures i == |ids| ==> trees == all
    ensures i < |ids| ==>
              Completing(trees + [S.Pane(d, size, across, at, ids[i])], d, size, across, at + step, step, ids, i + 1, all)
  {
    if i == |ids| {
      assert S.Panels(d, size, across, at, step, ids[i..]) == [];
    } else {
      assert ids[i..][1..] == ids[i + 1..];
      Concat(trees, [S.Pane(d, size, across, at, ids[i])], S.Panels(d, size, across, at + step, step, ids[i + 1..]));
    }
  }

  /** The children a container has so far. */
  ghost predicate Holding(lc: Cell, kids: seq<Shape>)
    reads lc`cells, CellsAll(kids)`parent, CellsAll(kids)`cells, CellsAll(kids)`kind
  {
    && Family(lc, kids) && lc !in CellsAll(kids) && |lc.cells| == |kids|
    && forall i :: 0 <= i < |kids| ==> lc.cells[i] == kids[i].cell
  }

  lemma HoldingNone(lc: Cell)
    requires lc.cells == []
    ensures Holding(lc, []) && CellsAll([]) == {} && TreesOf([]) == []
  {
    NoFamily(lc);
  }

  // TAILQ_INSERT_TAIL
  method InsertTail(lc: Cell, c: Cell, ghost kids: seq<Shape>, ghost k: Shape) returns (ghost all: seq<Shape>)
    requires Holding(lc, kids) && c == k.cell && Linked(k, lc) && Distinct(k) && lc !in Cells(k)
    requires CellsAll(kids) !! Cells(k)
    modifies lc`cells
    ensures all == kids + [k] && Holding(lc, all) && CellsAll(all) == CellsAll(kids) + Cells(k)
    ensures TreesOf(all) == old(TreesOf(kids)) + [old(TreeOf(k))]
  {
    hide Linked, Distinct, TreeOf, TreesOf, Cells, CellsAll, Family;
    FamilyAllocated(kids);
    AllAllocated(k);
    lc.cells := lc.cells + [c];
    JoinFamily(lc, kids, k);
    all := kids + [k];
  }

  method AddPanel(lc: Cell, d: Direction, size: int, across: int, at: int, wp: Pane, ghost kids: seq<Shape>,
                  ghost trees: seq<Tree>)
    returns (c: Cell, ghost all: seq<Shape>)
    requires Holding(lc, kids) && TreesOf(kids) == trees
    modifies lc`cells, wp`layoutCell
    ensures Holding(lc, all) && CellsAll(all) == CellsAll(kids) + {c} && fresh(c)
    ensures TreesOf(all) == trees + [S.Pane(d, size, across, at, wp.id)]
    ensures wp.layoutCell == c && c.wp == wp && c.kind == WindowPane
  {
    hide Linked, Distinct, TreeOf, TreesOf, Cells, CellsAll, Holding;
    FamilyAllocated(kids);
    if d == LeftRight {
      c := NewLeaf(lc, size, across, at, 0, wp);
    } else {
      c := NewLeaf(lc, across, size, 0, at, wp);
    }
    all := InsertTail(lc, c, kids, LeafShape(c));
  }

  /** The leaves for the first i panes are there, and those of the other panes
      make them `all`. */
  ghost predicate Filling(lc: Cell, kids: seq<Shape>, d: Direction, size: int, across: int, at: int, step: int,
                          panes: seq<Pane>, i: nat, all: seq<Tree>)
    reads lc`cells, CellsAll(kids)`parent, CellsAll(kids)`cells, CellsAll(kids)`kind, CellsAll(kids)`sx, CellsAll(kids)`sy
    reads CellsAll(kids)`xoff, CellsAll(kids)`yoff, CellsAll(kids)`wp, Owned(panes)`layoutCell
  {
    && i <= |panes| && Holding(lc, kids) && Completing(TreesOf(kids), d, size, across, at, step, Ids(panes), i, all)
    && forall j :: 0 <= j < i ==> HeldBy(panes[j], CellsAll(kids))
  }

  lemma FillingNone(lc: Cell, d: Direction, size: int, across: int, step: int, panes: seq<Pane>)
    requires lc.cells == []
    ensures Filling(lc, [], d, size, across, 0, step, panes, 0, S.Panels(d, size, across, 0, step, Ids(panes)))
  {
    HoldingNone(lc);
    CompletingStart(d, size, across, step, Ids(panes));
  }

  lemma FillingAll(lc: Cell, kids: seq<Shape>, d: Direction, size: int, across: int, at: int, step: int,
                   panes: seq<Pane>, all: seq<Tree>)
    requires Filling(lc, kids, d, size, across, at, step, panes, |panes|, all)
    ensures Holding(lc, kids) && TreesOf(kids) == all && Held(panes, CellsAll(kids))
  {
    hide Holding, CellsAll, TreesOf, Completing;
    CompletingStep(TreesOf(kids), d, size, across, at, step, Ids(panes), |panes|, all);
  }

  // The leaf for pane i, with i leaves there.
  method AddNext(lc: Cell, d: Direction, size: int, across: int, at: int, step: int, wp: Pane, ghost panes: seq<Pane>,
                 ghost i: nat, ghost kids: seq<Shape>, ghost all: seq<Tree>)
    returns (c: Cell, ghost more: seq<Shape>)
    requires i < |panes| && wp == panes[i] && NoRepeats(panes)
    requires Filling(lc, kids, d, size, across, at, step, panes, i, all)
    modifies lc`cells, wp`layoutCell
    ensures Filling(lc, more, d, size, across, at + step, step, panes, i + 1, all)
    ensures CellsAll(more) == CellsAll(kids) + {c} && fresh(c)
  {
    hide Linked, Distinct, TreeOf, TreesOf, Cells, CellsAll, Holding, Completing, Owned, S.Panels, S.Pane, Family;
    CompletingStep(TreesOf(kids), d, size, across, at, step, Ids(panes), i, all);
    c, more := AddPanel(lc, d, size, across, at, wp, kids, TreesOf(kids));
  }

  // Leaves of one size appended to a container, each `step` after the last.
  method AddPanels(lc: Cell, d: Direction, size: int, across: int, step: int, panes: seq<Pane>)
    returns (ghost kids: seq<Shape>)
    requires lc.cells == [] && NoRepeats(panes)
    modifies lc`cells, Owned(panes)`layoutCell
    ensures Holding(lc, kids) && fresh(CellsAll(kids)) && Held(panes, CellsAll(kids))
    ensures TreesOf(kids) == S.Panels(d, size, across, 0, step, Ids(panes))
  {
    hide Linked, Distinct, TreeOf, TreesOf, Cells, CellsAll, Holding, Filling, Ids, Owned, S.Panels, Held, NoRepeats;
    kids := [];
    HoldingNone(lc);
    FillingNone(lc, d, size, across, step, panes);
    ghost var all := S.Panels(d, size, across, 0, step, Ids(panes));
    var at := 0;
    for i := 0 to |panes|
      invariant Filling(lc, kids, d, size, across, at, step, panes, i, all) && fresh(CellsAll(kids))
    {
      var c;
      c, kids := AddNext(lc, d, size, across, at, step, panes[i], panes, i, kids, all);
      at := at + step;
    }
    FillingAll(lc, kids, d, size, across, at, step, panes, all);
  }

  /** A container of the children it holds. */
  lemma Container(lc: Cell, kids: seq<Shape>, parent: Cell?)
    requires Holding(lc, kids) && lc.parent == parent && lc.kind.Container?
    ensures var s := Shape(lc, kids);
            && Linked(s, parent) && Distinct(s) && Cells(s) == {lc} + CellsAll(kids)
            && TreeOf(s) == Node(lc.kind.dir, lc.sx, lc.sy, lc.xoff, lc.yoff, TreesOf(kids))
  {
    hide Linked, Distinct, TreeOf, TreesOf, Cells, CellsAll, Family;
    BuiltNode(lc, kids, parent);
  }

  lemma WidenedLast(kids: seq<Tree>, d: Direction, more: int)
    requires kids != [] && kids[|kids| - 1].Leaf? && more > 0
    ensures Inhabited(kids[|kids| - 1]) && more >= -Check(kids[|kids| - 1], d)
    ensures S.Widened(kids, d, more) == kids[|kids| - 1 := Adjust(kids[|kids| - 1], d, more)]
  {}

  // Leaves in a row, the last one widened to fit.
  method AddRow(lc: Cell, d: Direction, size: int, across: int, part: int, step: int, panes: seq<Pane>, ghost parent: Cell?)
    returns (ghost kids: seq<Shape>)
    requires lc.cells == [] && lc.kind == Kind.Container(d) && lc.parent == parent && panes != [] && NoRepeats(panes)
    modifies lc`cells, Owned(panes)`layoutCell
    ensures Held(panes, CellsAll(kids))
    ensures var s := Shape(lc, kids);
            && Linked(s, parent) && Distinct(s) && Cells(s) == {lc} + CellsAll(kids) && fresh(CellsAll(kids))
            && TreeOf(s) == Node(d, lc.sx, lc.sy, lc.xoff, lc.yoff, S.Row(d, size, across, part, step, Ids(panes)))
  {
    hide Linked, Distinct, TreeOf, TreesOf, Cells, CellsAll, Holding, S.Panels, S.Widened, Held, Owned, NoRepeats;
    kids := AddPanels(lc, d, part, across, step, panes);
    ghost var s := Shape(lc, kids);
    Container(lc, kids, parent);
    AllAllocated(s);
    OwnedIn(panes);
    ghost var trees := TreesOf(kids);
    var used := |panes| * (part + 1) - 1;
    NotWidened(trees, d, size - used);
    if size > used {
      WidenedLast(trees, d, size - used);
      Widen(lc, d, size - used, s, parent, trees);
    }
    TreeHere(s);
  }

  lemma NotWidened(kids: seq<Tree>, d: Direction, more: int)
    ensures more <= 0 ==> S.Widened(kids, d, more) == kids
  {}

  // layout_resize_adjust on the last child
  method Widen(lc: Cell, d: Direction, more: int, ghost s: Shape, ghost parent: Cell?, ghost trees: seq<Tree>)
    requires lc == s.cell && Linked(s, parent) && Distinct(s) && s.kids != [] && TreesOf(s.kids) == trees
    requires Inhabited(trees[|trees| - 1]) && more >= -Check(trees[|trees| - 1], d)
    modifies CellsAll(s.kids)`sx, CellsAll(s.kids)`sy
    ensures TreesOf(s.kids) == trees[|trees| - 1 := Adjust(trees[|trees| - 1], d, more)]
  {
    hide Linked, Distinct, TreeOf, TreesOf, Cells, CellsAll, Adjust, Check, Inhabited;
    AllAllocated(s);
    ChildrenLinked(s, parent);
    KidCells(s, |s.kids| - 1);
    ResizeAdjustChild(lc, d, more, |lc.cells| - 1, s, parent, trees);
  }

  lemma KidCells(s: Shape, i: nat)
    requires i < |s.kids|
    ensures Cells(s.kids[i]) <= CellsAll(s.kids)
  {}

  // layout_set_even_h and layout_set_even_v for two panes or more, in a window
  // that has room for the separators
  method SetEven(d: Direction, sx: nat, sy: nat, panes: seq<Pane>) returns (root: Cell, ghost s: Shape)
    requires |panes| >= 2 && NoRepeats(panes) && |panes| - 1 <= (if d == LeftRight then sx else sy) <= UINT_MAX
    modifies Owned(panes)`layoutCell
    ensures root == s.cell && Linked(s, null) && Distinct(s) && fresh(Cells(s)) && Held(panes, Cells(s))
    ensures TreeOf(s) == S.Even(d, sx, sy, Ids(panes))
  {
    hide Linked, Distinct, TreeOf, TreesOf, Cells, CellsAll, S.Row, Held, Owned, NoRepeats;
    var size, across := if d == LeftRight then sx else sy, if d == LeftRight then sy else sx;
    var part := ComputeShare(size, |panes|);
    root := new Cell(null);
    root.sx, root.sy, root.xoff, root.yoff := sx, sy, 0, 0;
    root.kind := Kind.Container(d);
    ghost var kids := AddRow(root, d, size, across, part, part + 1, panes, null);
    s := Shape(root, kids);
    HeldAmong(panes, CellsAll(kids), Cells(s));
  }

  // ----- layout_set_tiled

  // One row: a single pane takes the row's cell itself.
  method NewRow(root: Cell, panes: seq<Pane>, sx: nat, width: nat, height: nat) returns (lcrow: Cell, ghost k: Shape)
    requires panes != [] && NoRepeats(panes)
    modifies Owned(panes)`layoutCell
    ensures lcrow == k.cell && Linked(k, root) && Distinct(k) && fresh(Cells(k)) && Held(panes, Cells(k))
    ensures TreeOf(k) == S.TiledRow(Ids(panes), sx, width, height)
  {
    hide Linked, Distinct, TreeOf, TreesOf, Cells, CellsAll, Owned, S.Row, Held, NoRepeats;
    if |panes| == 1 {
      lcrow := NewLeaf(root, sx, height, 0, 0, panes[0]);
      k := LeafShape(lcrow);
      HeldOne(panes, 0, lcrow);
      assert panes[0..][..1] == panes;
      return;
    }
    lcrow := new Cell(root);
    lcrow.sx, lcrow.sy, lcrow.xoff, lcrow.yoff := sx, height, 0, 0;
    lcrow.kind := Kind.Container(LeftRight);
    ghost var kids := AddRow(lcrow, LeftRight, sx, height, width, 0, panes, root);
    k := Shape(lcrow, kids);
    AllAllocated(k);
    HeldAmong(panes, CellsAll(kids), Cells(k));
  }

  /** With these rows built and the panes from i on to come the result is
      `all`. */
  ghost predicate RowsLeft(
    trees: seq<Tree>, ids: seq<PaneId>, i: nat, columns: nat, sx: nat, width: nat, height: nat, all: seq<Tree>)
  {
    i <= |ids| && columns >= 1 && trees + S.TiledRows(ids[i..], columns, sx, width, height) == all
  }

  lemma RowsLeftStart(ids: seq<PaneId>, columns: nat, sx: nat, width: nat, height: nat)
    requires columns >= 1
    ensures RowsLeft([], ids, 0, columns, sx, width, height, S.TiledRows(ids, columns, sx, width, height))
  {
    assert ids[0..] == ids;
  }

  lemma RowsLeftStep(
    trees: seq<Tree>, ids: seq<PaneId>, i: nat, columns: nat, sx: nat, width: nat, height: nat, all: seq<Tree>)
    requires RowsLeft(trees, ids, i, columns, sx, width, height, all)
    ensures i == |ids| ==> trees == all
    ensures i < |ids| ==>
              var n := Min(columns, |ids| - i);
              RowsLeft(trees + [S.TiledRow(ids[i..i + n], sx, width, height)], ids, i + n, columns, sx, width, height, all)
  {
    if i == |ids| {
      assert S.TiledRows(ids[i..], columns, sx, width, height) == [];
    } else {
      var n := Min(columns, |ids| - i);
      assert ids[i..][..n] == ids[i..i + n] && ids[i..][n..] == ids[i + n..];
      Concat(trees, [S.TiledRow(ids[i..i + n], sx, width, height)], S.TiledRows(ids[i + n..], columns, sx, width, height));
    }
  }

  // The rows of the grid, each with as many panes as there are columns or as
  // are left.
  method AddRows(root: Cell, panes: seq<Pane>, columns: nat, sx: nat, width: nat, height: nat)
    returns (ghost kids: seq<Shape>)
    requires root.cells == [] && columns >= 1 && NoRepeats(panes)
    modifies root`cells, Owned(panes)`layoutCell
    ensures Holding(root, kids) && fresh(CellsAll(kids)) && Held(panes, CellsAll(kids))
    ensures TreesOf(kids) == S.TiledRows(Ids(panes), columns, sx, width, height)
  {
    hide Linked, Distinct, TreeOf, TreesOf, Cells, CellsAll, Holding, RowsLeft, Ids, S.TiledRow, S.TiledRows,
         Held, Owned, NoRepeats;
    kids := [];
    HoldingNone(root);
    ghost var ids, all := Ids(panes), S.TiledRows(Ids(panes), columns, sx, width, height);
    RowsLeftStart(ids, columns, sx, width, height);
    ghost var built: set<Cell>, trees: seq<Tree> := {}, [];
    HeldNone(panes, built);
    var i := 0;
    while i < |panes|
      invariant i <= |panes| && Holding(root, kids) && CellsAll(kids) == built && fresh(built) && TreesOf(kids) == trees
      invariant RowsLeft(trees, ids, i, columns, sx, width, height, all)
      invariant Held(panes[..i], built)
    {
      RowsLeftStep(trees, ids, i, columns, sx, width, height, all);
      var n := if columns < |panes| - i then columns else |panes| - i;
      IdsSlice(panes, i, n);
      PanesApart(panes, i);
      FamilyAllocated(kids);
      var lcrow;
      ghost var k;
      lcrow, k := NewRow(root, panes[i..i + n], sx, width, height);
      AllAllocated(k);
      assert panes[i..i + n] == panes[i..][..n];
      HeldMore(panes, i, n, built, Cells(k));
      OwnedIn(panes[..i + n]);
      built, trees := built + Cells(k), trees + [TreeOf(k)];
      kids := InsertTail(root, lcrow, kids, k);
      i := i + n;
    }
    RowsLeftStep(trees, ids, i, columns, sx, width, height, all);
    assert panes[..|panes|] == panes;
  }

  lemma IdsSlice(panes: seq<Pane>, i: nat, n: nat)
    requires i + n <= |panes|
    ensures Ids(panes[i..i + n]) == Ids(panes)[i..i + n]
    ensures Owned(panes[i..i + n]) <= Owned(panes) && Owned(panes[i..i + n]) <= Owned(panes[i..])
    ensures NoRepeats(panes) ==> NoRepeats(panes[i..i + n])
  {}

  // layout_set_tiled for two panes or more, in a window that has room for the
  // separators
  method SetTiled(sx: nat, sy: nat, panes: seq<Pane>)
    returns (root: Cell, ghost s: Shape, ghost rows: nat, ghost columns: nat)
    requires |panes| >= 2 && NoRepeats(panes)
    requires forall r: nat, c: nat :: S.Grid(|panes|, r, c) ==> c - 1 <= sx <= UINT_MAX && r - 1 <= sy <= UINT_MAX
    modifies Owned(panes)`layoutCell
    ensures root == s.cell && Linked(s, null) && Distinct(s) && fresh(Cells(s)) && S.Grid(|panes|, rows, columns)
    ensures Held(panes, Cells(s))
    ensures TreeOf(s) == S.Tile(sx, sy, Ids(panes), rows, columns)
  {
    hide Linked, Distinct, TreeOf, TreesOf, Cells, CellsAll, Holding, S.TiledRows, S.Share, S.Grid, S.FittedRows, Owned,
         LayoutOffsets.FixOffsets, Inhabited, Ids, Adjust, Check, S.Chunk, Held, NoRepeats;
    var r, c := S.Dimensions(|panes|);
    rows, columns := r, c;
    GridPositive(|panes|, r, c);
    var width := ComputeShare(sx, c);
    var height := ComputeShare(sy, r);
    root := new Cell(null);
    root.sx, root.sy := (width + 1) * c - 1, (height + 1) * r - 1;
    root.xoff, root.yoff := 0, 0;
    root.kind := Kind.Container(TopBottom);
    ghost var kids := AddRows(root, panes, c, sx, width, height);
    s := Shape(root, kids);
    Container(root, kids, null);
    AllAllocated(s);
    OwnedIn(panes);
    HeldAmong(panes, CellsAll(kids), Cells(s));
    ghost var trees := TreesOf(kids);
    S.TiledInhabited(sx, sy, Ids(panes), r, c);
    FinishRows(root, sy - (r * height + r - 1), s, trees);
    AllAllocated(s);
  }

  // The last row takes the height that is left, and everything is placed.
  method FinishRows(root: Cell, more: int, ghost s: Shape, ghost trees: seq<Tree>)
    requires root == s.cell && root.kind == Kind.Container(TopBottom)
    requires Linked(s, null) && Distinct(s) && s.kids != [] && TreesOf(s.kids) == trees
    requires Inhabited(trees[|trees| - 1])
    modifies CellsAll(s.kids)`sx, CellsAll(s.kids)`sy, CellsAll(s.kids)`xoff, CellsAll(s.kids)`yoff
    ensures TreeOf(s) == LayoutOffsets.FixOffsets(
                           Node(TopBottom, old(root.sx), old(root.sy), root.xoff, root.yoff, S.FittedRows(trees, more)))
  {
    hide Linked, Distinct, TreeOf, TreesOf, Cells, CellsAll, LayoutOffsets.FixOffsets, Inhabited, S.FittedRows;
    AllAllocated(s);
    SelfOnly(s);
    FitLastRow(root, more, s, trees);
    TreeHere(s);
    FixOffsets(root, s, null);
  }

  method FitLastRow(root: Cell, more: int, ghost s: Shape, ghost trees: seq<Tree>)
    requires root == s.cell && Linked(s, null) && Distinct(s) && s.kids != [] && TreesOf(s.kids) == trees
    requires Inhabited(trees[|trees| - 1])
    modifies CellsAll(s.kids)`sx, CellsAll(s.kids)`sy
    ensures TreesOf(s.kids) == S.FittedRows(trees, more)
  {
    hide Linked, Distinct, TreeOf, TreesOf, Cells, CellsAll, Adjust, Inhabited;
    if more > 0 {
      LastRow(trees, more);
      Widen(root, TopBottom, more, s, null, trees);
    }
  }

  lemma GridPositive(n: nat, r: nat, c: nat)
    requires S.Grid(n, r, c)
    ensures r >= 1 && c >= 1
  {}

  lemma LastRow(rows: seq<Tree>, more: int)
    requires rows != [] && Inhabited(rows[|rows| - 1]) && more > 0
    ensures more >= -Check(rows[|rows| - 1], TopBottom)
  {}
}
