// The window object: layout_init, layout_resize, layout_resize_pane,
// layout_split_pane with layout_assign_pane, and layout_close_pane on linked
// cells, each proved to take the step LayoutWindow.Step describes.
module LayoutObject {
  import opened Common
  import opened LayoutTree
  import opened LayoutAdjust
  import opened LayoutPaths
  import opened LayoutPlaced
  import opened LayoutCells
  import opened LayoutShapes
  import LayoutOffsets
  import R = LayoutResizePane
  import C = LayoutClose
  import S = LayoutSplit
  import W = LayoutWindow

  // ----- layout_resize_pane_grow and layout_resize_pane_shrink

  /** The children of a container as one row. */
  ghost predicate IsRow(lc: Cell, d: Direction, sh: Shape, parent: Cell?, kids: seq<Tree>, across: int)
    reads Cells(sh)
  {
    lc == sh.cell && Linked(sh, parent) && Distinct(sh) && TreesOf(sh.kids) == kids && R.Row(kids, d, across)
    && |lc.cells| == |kids|
  }

  lemma MoveIs(kids: seq<Tree>, d: Direction, to: nat, from: nat, n: int, across: int)
    requires R.Movable(kids, d, to, from, n, across)
    ensures Inhabited(kids[to]) && Inhabited(kids[from]) && n >= -Check(kids[to], d) && -n >= -Check(kids[from], d)
    ensures R.Move(kids, d, to, from, n, across)
            == kids[to := Adjust(kids[to], d, n)][from := Adjust(kids[from], d, -n)]
  {}

  // Add to one child what another gives.
  method MoveSpace(lc: Cell, d: Direction, to: nat, from: nat, n: int,
                   ghost sh: Shape, ghost parent: Cell?, ghost kids: seq<Tree>, ghost across: int)
    requires IsRow(lc, d, sh, parent, kids, across) && R.Movable(kids, d, to, from, n, across)
    modifies CellsAll(sh.kids)`sx, CellsAll(sh.kids)`sy
    ensures TreesOf(sh.kids) == R.Move(kids, d, to, from, n, across)
    ensures IsRow(lc, d, sh, parent, R.Move(kids, d, to, from, n, across), across)
  {
    hide Linked, Distinct, Cells, CellsAll, TreeOf, TreesOf, R.Row, Adjust, Check, Inhabited;
    AllAllocated(sh);
    SelfOnly(sh);
    MoveIs(kids, d, to, from, n, across);
    R.MoveFacts(kids, d, to, from, n, across);
    ResizeAdjustChild(lc, d, n, to, sh, parent, kids);
    ResizeAdjustChild(lc, d, -n, from, sh, parent, kids[to := Adjust(kids[to], d, n)]);
  }

  // TAILQ_NEXT from child i until a child can give space.
  method TowardsTail(lc: Cell, d: Direction, i: nat,
                     ghost sh: Shape, ghost parent: Cell?, ghost kids: seq<Tree>, ghost across: int)
    returns (j: nat, size: int)
    requires IsRow(lc, d, sh, parent, kids, across) && i <= |lc.cells|
    ensures IsRow(lc, d, sh, parent, kids, across)
    ensures j <= |kids| && (j < |kids| ==> j == R.DonorAfter(kids, d, i) && size == Check(kids[j], d) > 0)
    ensures j == |kids| ==> R.DonorAfter(kids, d, i) >= |kids|
  {
    hide Linked, Distinct, Cells, CellsAll, TreeOf, TreesOf, R.Row, Check;
    AllAllocated(sh);
    SelfOnly(sh);
    j, size := i, 0;
    while j < |lc.cells|
      invariant i <= j <= |kids| && IsRow(lc, d, sh, parent, kids, across)
      invariant R.DonorAfter(kids, d, j) == R.DonorAfter(kids, d, i)
    {
      size := ResizeCheckChild(lc, d, j, sh, parent, kids);
      if size > 0 {
        return;
      }
      j := j + 1;
    }
  }

  // TAILQ_PREV from child i - 1 until a child can give space.
  method TowardsHead(lc: Cell, d: Direction, i: nat,
                     ghost sh: Shape, ghost parent: Cell?, ghost kids: seq<Tree>, ghost across: int)
    returns (j: int, size: int)
    requires IsRow(lc, d, sh, parent, kids, across) && i <= |lc.cells|
    ensures IsRow(lc, d, sh, parent, kids, across)
    ensures j == R.DonorBefore(kids, d, i) && (j >= 0 ==> size == Check(kids[j], d) > 0)
  {
    hide Linked, Distinct, Cells, CellsAll, TreeOf, TreesOf, R.Row, Check;
    AllAllocated(sh);
    SelfOnly(sh);
    j, size := i - 1, 0;
    while j >= 0
      invariant -1 <= j < i && IsRow(lc, d, sh, parent, kids, across)
      invariant R.DonorBefore(kids, d, j + 1) == R.DonorBefore(kids, d, i)
    {
      size := ResizeCheckChild(lc, d, j, sh, parent, kids);
      if size > 0 {
        return;
      }
      j := j - 1;
    }
  }

  // Child i takes what it needs from the donor, if the donor has that much.
  method TakeFrom(lc: Cell, d: Direction, i: nat, needed: int, from: nat, available: int,
                  ghost sh: Shape, ghost parent: Cell?, ghost kids: seq<Tree>, ghost across: int)
    returns (size: int, ghost r: seq<Tree>)
    requires IsRow(lc, d, sh, parent, kids, across) && i < |lc.cells| && needed > 0
    requires R.GrowDonor(kids, d, i) == from < |kids| && available == Check(kids[from], d)
    modifies CellsAll(sh.kids)`sx, CellsAll(sh.kids)`sy
    ensures IsRow(lc, d, sh, parent, r, across) && |r| == |kids| && 0 < size <= needed
    ensures R.GrowKid(r, d, i, needed - size, across) == R.GrowKid(kids, d, i, needed, across)
  {
    hide Linked, Distinct, Cells, CellsAll, TreeOf, TreesOf, R.Row, Adjust, Check, Inhabited, R.Move, R.GrowKid, R.GrowDonor;
    AllAllocated(sh);
    SelfOnly(sh);
    size := if available > needed then needed else available;
    ghost var j, n := R.GrowUnfold(kids, d, i, needed, across);
    MoveSpace(lc, d, i, from, size, sh, parent, kids, across);
    r := R.Move(kids, d, i, from, size, across);
  }

  method ResizePaneGrow(lc: Cell, d: Direction, i: nat, needed: int,
                        ghost sh: Shape, ghost parent: Cell?, ghost kids: seq<Tree>, ghost across: int)
    returns (size: int, ghost r: seq<Tree>)
    requires IsRow(lc, d, sh, parent, kids, across) && i < |lc.cells| && needed > 0
    modifies CellsAll(sh.kids)`sx, CellsAll(sh.kids)`sy
    ensures IsRow(lc, d, sh, parent, r, across) && |r| == |kids| && 0 <= size <= needed
    ensures R.GrowKid(r, d, i, needed - size, across) == R.GrowKid(kids, d, i, needed, across)
    ensures size == 0 ==> r == R.GrowKid(kids, d, i, needed, across)
  {
    hide Linked, Distinct, Cells, CellsAll, TreeOf, TreesOf, R.Row, Adjust, Check, Inhabited, R.Move, R.GrowKid, R.DonorAfter, R.DonorBefore;
    AllAllocated(sh);
    SelfOnly(sh);
    r := kids;
    R.NoTurns(kids, d, i, needed, across);
    // Donors behind the child come first.
    var from, available := TowardsTail(lc, d, i + 1, sh, parent, kids, across);
    if from == |lc.cells| {
      var before;
      before, available := TowardsHead(lc, d, i, sh, parent, kids, across);
      if before < 0 {
        return 0, kids;
      }
      from := before;
    }
    size, r := TakeFrom(lc, d, i, needed, from, available, sh, parent, kids, across);
  }

  method ResizePaneShrink(lc: Cell, d: Direction, i: nat, needed: int,
                          ghost sh: Shape, ghost parent: Cell?, ghost kids: seq<Tree>, ghost across: int)
    returns (size: int, ghost r: seq<Tree>)
    requires IsRow(lc, d, sh, parent, kids, across) && i + 1 < |lc.cells| && needed < 0
    modifies CellsAll(sh.kids)`sx, CellsAll(sh.kids)`sy
    ensures IsRow(lc, d, sh, parent, r, across) && |r| == |kids| && 0 <= size <= -needed
    ensures R.ShrinkKid(r, d, i, -needed - size, across) == R.ShrinkKid(kids, d, i, -needed, across)
    ensures size == 0 ==> r == R.ShrinkKid(kids, d, i, -needed, across)
  {
    hide Linked, Distinct, Cells, CellsAll, TreeOf, TreesOf, R.Row, Adjust, Check, Inhabited, R.Move, R.ShrinkKid, R.DonorBefore;
    AllAllocated(sh);
    SelfOnly(sh);
    r := kids;
    R.NoTurns(kids, d, i, -needed, across);
    var from, available := TowardsHead(lc, d, i + 1, sh, parent, kids, across);
    if from < 0 {
      return 0, kids;
    }
    size := if available > -needed then -needed else available;
    ghost var j, n := R.ShrinkUnfold(kids, d, i, -needed, across);
    assert j == from && n == size;
    MoveSpace(lc, d, i + 1, from, size, sh, parent, kids, across);
    r := R.Move(kids, d, i + 1, from, size, across);
  }

  // The loop of layout_resize_pane on one container's children.
  method ResizeRow(lc: Cell, d: Direction, i: nat, change: int,
                   ghost sh: Shape, ghost parent: Cell?, ghost start: seq<Tree>, ghost across: int)
    returns (ghost r: seq<Tree>)
    requires IsRow(lc, d, sh, parent, start, across) && i + 1 < |lc.cells|
    modifies CellsAll(sh.kids)`sx, CellsAll(sh.kids)`sy
    ensures IsRow(lc, d, sh, parent, r, across)
    ensures r == if change >= 0 then R.GrowKid(start, d, i, change, across)
                 else R.ShrinkKid(start, d, i, -change, across)
  {
    hide Linked, Distinct, Cells, CellsAll, TreeOf, TreesOf, R.Row, R.GrowKid, R.ShrinkKid;
    AllAllocated(sh);
    SelfOnly(sh);
    ghost var all := if change >= 0 then R.GrowKid(start, d, i, change, across)
                     else R.ShrinkKid(start, d, i, -change, across);
    r := start;
    R.NoTurns(start, d, i, 0, across);
    var needed := change;
    while needed != 0
      invariant IsRow(lc, d, sh, parent, r, across) && |r| == |start|
      invariant change >= 0 ==> needed >= 0 && R.GrowKid(r, d, i, needed, across) == all
      invariant change <= 0 ==> needed <= 0 && R.ShrinkKid(r, d, i, -needed, across) == all
      decreases Common.Abs(needed)
    {
      var size;
      if change > 0 {
        size, r := ResizePaneGrow(lc, d, i, needed, sh, parent, r, across);
        needed := needed - size;
      } else {
        size, r := ResizePaneShrink(lc, d, i, needed, sh, parent, r, across);
        needed := needed + size;
      }
      if size == 0 {
        return;
      }
    }
    R.NoTurns(r, d, i, 0, across);
  }

  // One axis of layout_resize.
  method ResizeAxis(lc: Cell, d: Direction, was: int, now: int, ghost sh: Shape, ghost t: Tree)
    requires lc == sh.cell && Linked(sh, null) && Distinct(sh) && TreeOf(sh) == t && C.Sound(t)
    modifies Cells(sh)`sx, Cells(sh)`sy
    ensures TreeOf(sh) == W.ResizeAxis(t, d, was, now)
  {
    hide Linked, Distinct, Cells, CellsAll, TreeOf, TreesOf, Adjust, Check, Inhabited, Fits, Branching, LayoutOffsets.Positive;
    AllAllocated(sh);
    TreeHere(sh);
    W.AdjustNothing(t, d);
    // Do not shrink below the minimum; from the minimum, grow only by what
    // goes beyond it.
    var change := now - was;
    var limit := ResizeCheck(lc, d, sh, null);
    if change < 0 && change < -limit {
      change := -limit;
    }
    if limit == 0 {
      var size := if d == LeftRight then lc.sx else lc.sy;
      if now <= size {
        change := 0;
      } else {
        change := now - size;
      }
    }
    if change != 0 {
      ResizeAdjust(lc, d, change, sh, null);
    }
  }

  // Position of a cell in its parent's list.
  method IndexIn(cells: seq<Cell>, lc: Cell) returns (i: nat)
    requires lc in cells
    ensures i < |cells| && cells[i] == lc && lc !in cells[..i]
  {
    i := 0;
    while cells[i] != lc
      invariant i < |cells| && lc !in cells[..i]
      invariant exists j :: i <= j < |cells| && cells[j] == lc
      decreases |cells| - i
    {
      i := i + 1;
    }
  }

  lemma LeafKids(s: Shape, parent: Cell?)
    requires Linked(s, parent) && s.cell.kind == WindowPane
    ensures s == LeafShape(s.cell) && TreeOf(s).Leaf?
  {}

  lemma LeafLinked(c: Cell, parent: Cell?)
    requires c.parent == parent && c.cells == [] && c.kind == WindowPane
    ensures Linked(LeafShape(c), parent)
    ensures TreeOf(LeafShape(c)) == Leaf(c.sx, c.sy, c.xoff, c.yoff, if c.wp == null then None else Some(c.wp.id))
  {}

  lemma LeafLinks(c: Cell, parent: Cell?)
    requires Linked(LeafShape(c), parent) && TreeOf(LeafShape(c)).Leaf?
    ensures c.parent == parent && c.cells == [] && c.kind == WindowPane
    ensures TreeOf(LeafShape(c)) == Leaf(c.sx, c.sy, c.xoff, c.yoff, if c.wp == null then None else Some(c.wp.id))
  {}

  // layout_set_size
  method SetCellSize(lc: Cell, sx: int, sy: int, xoff: int, yoff: int)
    modifies lc`sx, lc`sy, lc`xoff, lc`yoff
    ensures lc.sx == sx && lc.sy == sy && lc.xoff == xoff && lc.yoff == yoff
  {
    lc.sx, lc.sy := sx, sy;
    lc.xoff, lc.yoff := xoff, yoff;
  }

  // Sizes of the two halves; the left or top one stays at the old offset.
  method SetHalves(lc: Cell, lcnew: Cell, d: Direction, hint: int, before: bool)
    requires lc != lcnew
    modifies lc`sx, lc`sy, lc`xoff, lc`yoff, lcnew`sx, lcnew`sy, lcnew`xoff, lcnew`yoff
    ensures var o := Leaf(old(lc.sx), old(lc.sy), old(lc.xoff), old(lc.yoff), None);
            var (h1, h2) := S.Halves(o, d, hint, before);
            var (lc1, lc2) := if before then (lcnew, lc) else (lc, lcnew);
            && lc1.sx == h1.sx && lc1.sy == h1.sy && lc1.xoff == h1.xoff && lc1.yoff == h1.yoff
            && lc2.sx == h2.sx && lc2.sy == h2.sy && lc2.xoff == h2.xoff && lc2.yoff == h2.yoff
  {
    var lc1, lc2 := if before then lcnew else lc, if before then lc else lcnew;
    var sx, sy, xoff, yoff := lc.sx, lc.sy, lc.xoff, lc.yoff;
    if d == LeftRight {
      var size2 := if hint < 0 then (sx + 1) / 2 - 1 else hint;
      if size2 < PANE_MINIMUM {
        size2 := PANE_MINIMUM;
      } else if size2 > sx - 2 {
        size2 := sx - 2;
      }
      var size1 := sx - 1 - size2;
      SetCellSize(lc1, size1, sy, xoff, yoff);
      SetCellSize(lc2, size2, sy, xoff + lc1.sx + 1, yoff);
    } else {
      var size2 := if hint < 0 then (sy + 1) / 2 - 1 else hint;
      if size2 < PANE_MINIMUM {
        size2 := PANE_MINIMUM;
      } else if size2 > sy - 2 {
        size2 := sy - 2;
      }
      var size1 := sy - 1 - size2;
      SetCellSize(lc1, sx, size1, xoff, yoff);
      SetCellSize(lc2, sx, size2, xoff, yoff + lc1.sy + 1);
    }
  }

  /** The pane does not matter for the sizes of the halves. */
  lemma HalfLeaves(t: Tree, d: Direction, hint: int, before: bool)
    requires t.Leaf?
    ensures var (h1, h2) := S.Halves(Leaf(t.sx, t.sy, t.xoff, t.yoff, None), d, hint, before);
            S.Halves(t, d, hint, before) == (
              Leaf(h1.sx, h1.sy, h1.xoff, h1.yoff, if before then None else t.wp),
              Leaf(h2.sx, h2.sy, h2.xoff, h2.yoff, if before then t.wp else None))
  {}

  /** A split that does not join an existing container. */
  lemma SplitApart(t: Tree, p: Path, d: Direction, hint: int, before: bool)
    requires IsPath(t, p) && At(t, p).Leaf? && S.CanSplit(At(t, p), d) && !S.Joins(t, p, d)
    ensures var lc := At(t, p);
            var (c1, c2) := S.Halves(lc, d, hint, before);
            S.SplitTree(t, p, d, hint, before) ==
            Some((Replace(t, p, Node(d, lc.sx, lc.sy, lc.xoff, lc.yoff, [c1, c2])), p + [if before then 0 else 1]))
  {
    assert S.SplitPoint(t, p, d) == p;
  }

  ghost predicate NodeMatches(c: Cell, t: Tree)
    reads c
  {
    t.Node? && c.kind == Container(t.dir)
    && c.sx == t.sx && c.sy == t.sy && c.xoff == t.xoff && c.yoff == t.yoff
  }

  /** The children other than n are in order. */
  ghost predicate KidsExcept(sh: Shape, n: nat, t: Tree)
    reads Siblings(sh, n)
  {
    t.Node? && |t.kids| == |sh.kids|
    && forall j :: 0 <= j < |sh.kids| && j != n ==>
         Linked(sh.kids[j], sh.cell) && TreeOf(sh.kids[j]) == t.kids[j]
  }

  lemma OpenChild(sh: Shape, parent: Cell?, n: nat)
    requires Linked(sh, parent) && Distinct(sh) && n < |sh.kids|
    ensures KidsExcept(sh, n, TreeOf(sh)) && NodeMatches(sh.cell, TreeOf(sh)) && LinkedHere(sh, parent)
    ensures Linked(sh.kids[n], sh.cell) && TreeOf(sh.kids[n]) == TreeOf(sh).kids[n]
    ensures sh.cell !in Siblings(sh, n) && sh.kids[n].cell !in Siblings(sh, n) && sh.cell != sh.kids[n].cell
    ensures sh.cell.cells[n] == sh.kids[n].cell
    ensures forall i :: 0 <= i < |sh.kids| && sh.cell.cells[i] == sh.kids[n].cell ==> i == n
    ensures forall c :: c in Cells(sh) ==> allocated(c)
    ensures Siblings(sh, n) <= Cells(sh) && |sh.cell.cells| == |sh.kids|
    ensures sh.cell in Cells(sh) && sh.kids[n].cell in Cells(sh)
  {
    hide Distinct, Cells, CellsAll, Siblings;
    TreeHere(sh);
    ChildLinked(sh, parent, n);
    SiblingCells(sh, n);
    SiblingsBelow(sh, n);
    TopCell(sh);
    TopCell(sh.kids[n]);
    ChildIndex(sh, parent, n);
    AllAllocated(sh);
  }

  /** A container put together from the children other than n and what stands
      in place of child n. */
  lemma JoinKids(sh: Shape, parent: Cell?, n: nat, t: Tree, mid: seq<Shape>, trees: seq<Tree>)
    requires n < |sh.kids| && KidsExcept(sh, n, t) && NodeMatches(sh.cell, t) && |mid| == |trees|
    requires forall i :: 0 <= i < |mid| ==> Linked(mid[i], sh.cell) && TreeOf(mid[i]) == trees[i]
    requires var kids := sh.kids[..n] + mid + sh.kids[n + 1..];
             LinkedHere(sh.(kids := kids), parent)
    ensures var r := sh.(kids := sh.kids[..n] + mid + sh.kids[n + 1..]);
            Linked(r, parent) && TreeOf(r) == t.(kids := t.kids[..n] + trees + t.kids[n + 1..])
  {
    hide Linked, TreeOf, TreesOf;
    var r := sh.(kids := sh.kids[..n] + mid + sh.kids[n + 1..]);
    var all := t.kids[..n] + trees + t.kids[n + 1..];
    forall j | 0 <= j < |r.kids| ensures Linked(r.kids[j], sh.cell) && TreeOf(r.kids[j]) == all[j] {
      if j < n {
        assert r.kids[j] == sh.kids[j];
      } else if j < n + |mid| {
        assert r.kids[j] == mid[j - n];
      } else {
        assert r.kids[j] == sh.kids[j - |mid| + 1];
      }
    }
    BuildLinked(r, parent);
    BuildTrees(r.kids, all);
    TreeHere(r);
  }

  // A new cell in the parent's list beside lc.
  method JoinCells(lc: Cell, d: Direction, hint: int, before: bool,
                   ghost sh: Shape, ghost parent: Cell?, ghost n: nat, ghost t: Tree)
    returns (lcnew: Cell, ghost s: Shape, ghost m: nat)
    requires Linked(sh, parent) && Distinct(sh) && TreeOf(sh) == t && n < |sh.kids| && sh.kids[n] == LeafShape(lc)
    requires t.Node? && n < |t.kids| && t.kids[n].Leaf?
    modifies sh.cell`cells, lc`sx, lc`sy, lc`xoff, lc`yoff
    ensures fresh(lcnew) && lcnew.kind == WindowPane && lcnew.wp == null
    ensures m == (if before then n else n + 1) && m < |s.kids| && s.kids[m].cell == lcnew && s.cell == sh.cell
    ensures Linked(s, parent) && Distinct(s) && Cells(s) == Cells(sh) + {lcnew}
    ensures var (c1, c2) := S.Halves(t.kids[n], d, hint, before);
            TreeOf(s) == t.(kids := t.kids[..n] + [c1, c2] + t.kids[n + 1..])
  {
    hide Linked, Distinct, Cells, CellsAll, TreeOf, TreesOf, KidsExcept, Siblings, S.Halves;
    HalfLeaves(t.kids[n], d, hint, before);
    OpenChild(sh, parent, n);
    LeafLinks(lc, sh.cell);
    var lcparent: Cell := lc.parent;
    var i := IndexIn(lcparent.cells, lc);
    lcnew := new Cell(lcparent);
    assert lcnew !in Cells(sh);
    if before {
      lcparent.cells := lcparent.cells[..i] + [lcnew] + lcparent.cells[i..];
    } else {
      lcparent.cells := lcparent.cells[..i + 1] + [lcnew] + lcparent.cells[i + 1..];
    }
    SetHalves(lc, lcnew, d, hint, before);
    m := if before then n else n + 1;

    ghost var a, b := if before then lcnew else lc, if before then lc else lcnew;
    ghost var (c1, c2) := S.Halves(t.kids[n], d, hint, before);
    s := sh.(kids := sh.kids[..n] + [LeafShape(a), LeafShape(b)] + sh.kids[n + 1..]);
    LeafShapeFacts(lc);
    LeafLinked(lc, lcparent);
    LeafLinked(lcnew, lcparent);
    JoinKids(sh, parent, n, t, [LeafShape(a), LeafShape(b)], [c1, c2]);
    DivideShape(sh, n, a, b, lcnew);
  }

  // TAILQ_REPLACE: another cell in place of child n.
  method ReplaceChild(lcparent: Cell, lcold: Cell, lc: Cell,
                      ghost sh: Shape, ghost parent: Cell?, ghost n: nat, ghost s: Shape, ghost t: Tree)
    returns (ghost r: Shape)
    requires lcparent == sh.cell && n < |sh.kids| && sh.kids[n].cell == lcold && lc == s.cell
    requires Distinct(sh) && LinkedHere(sh, parent) && NodeMatches(sh.cell, t) && KidsExcept(sh, n, t)
    requires Linked(s, sh.cell) && Distinct(s) && sh.cell !in Cells(s) && Siblings(sh, n) !! Cells(s)
    modifies sh.cell`cells
    ensures r == sh.(kids := sh.kids[n := s])
    ensures Linked(r, parent) && Distinct(r) && Cells(r) == {sh.cell} + Siblings(sh, n) + Cells(s)
    ensures TreeOf(r) == t.(kids := t.kids[n := TreeOf(s)])
  {
    hide Linked, Distinct, Cells, CellsAll, TreeOf, TreesOf, KidsExcept, Siblings;
    AllAllocated(sh);
    AllAllocated(s);
    SiblingCells(sh, n);
    SiblingsBelow(sh, n);
    ghost var u := TreeOf(s);
    ChildPosition(sh, n);
    KidsCount(sh, n, t);
    var i := IndexIn(lcparent.cells, lcold);
    lcparent.cells := lcparent.cells[i := lc];
    r := sh.(kids := sh.kids[n := s]);
    assert r.kids == sh.kids[..n] + [s] + sh.kids[n + 1..];
    assert t.kids[n := u] == t.kids[..n] + [u] + t.kids[n + 1..];
    JoinKids(sh, parent, n, t, [s], [u]);
    ReplaceKid(sh, n, s);
  }

  lemma KidsCount(sh: Shape, n: nat, t: Tree)
    requires KidsExcept(sh, n, t)
    ensures t.Node? && |t.kids| == |sh.kids|
  {}

  /** A child cell occurs once in the list. */
  lemma ChildPosition(sh: Shape, n: nat)
    requires LinkedHere(sh, sh.cell.parent) && Distinct(sh) && n < |sh.kids|
    ensures sh.cell.cells[n] == sh.kids[n].cell
    ensures forall i :: 0 <= i < |sh.kids| && sh.cell.cells[i] == sh.kids[n].cell ==> i == n
  {
    hide Distinct, Cells, CellsAll;
    ChildCells(sh, n);
    TopCell(sh.kids[n]);
    forall i | 0 <= i < |sh.kids| && i != n ensures sh.cell.cells[i] != sh.kids[n].cell {
      TopCell(sh.kids[i]);
    }
  }

  // A container in lc's place, holding lc and a new cell.
  method NewContainer(lc: Cell, d: Direction, hint: int, before: bool, ghost parent: Cell?, ghost t: Tree)
    returns (lcparent: Cell, lcnew: Cell, ghost s: Shape, ghost m: nat)
    requires Linked(LeafShape(lc), parent) && TreeOf(LeafShape(lc)) == t && t.Leaf?
    modifies lc`parent, lc`sx, lc`sy, lc`xoff, lc`yoff
    ensures fresh(lcparent) && fresh(lcnew) && lcparent.wp == null && lcnew.kind == WindowPane && lcnew.wp == null
    ensures lcparent.kind == Container(d)
    ensures m == (if before then 0 else 1) && m < |s.kids| && s.kids[m].cell == lcnew && s.cell == lcparent
    ensures Linked(s, parent) && Distinct(s) && Cells(s) == {lcparent, lc, lcnew}
    ensures var (c1, c2) := S.Halves(t, d, hint, before);
            TreeOf(s) == Node(d, t.sx, t.sy, t.xoff, t.yoff, [c1, c2])
  {
    hide Linked, Distinct, Cells, CellsAll, TreeOf, TreesOf, S.Halves;
    LeafLinks(lc, parent);
    HalfLeaves(t, d, hint, before);
    lcparent := new Cell(lc.parent);
    lcparent.kind := Container(d);
    SetCellSize(lcparent, lc.sx, lc.sy, lc.xoff, lc.yoff);
    lc.parent := lcparent;
    lcparent.cells := [lc];
    lcnew := new Cell(lcparent);
    if before {
      lcparent.cells := [lcnew] + lcparent.cells;
    } else {
      lcparent.cells := lcparent.cells + [lcnew];
    }
    SetHalves(lc, lcnew, d, hint, before);
    m := if before then 0 else 1;

    ghost var a, b := if before then lcnew else lc, if before then lc else lcnew;
    s := Shape(lcparent, [LeafShape(a), LeafShape(b)]);
    PairBuilt(lcparent, a, b, parent);
  }

  function CellLeaf(c: Cell): Tree
    reads c, c.wp
  {
    Leaf(c.sx, c.sy, c.xoff, c.yoff, if c.wp == null then None else Some(c.wp.id))
  }

  lemma PairBuilt(top: Cell, a: Cell, b: Cell, parent: Cell?)
    requires top != a && top != b && a != b
    requires top.parent == parent && top.cells == [a, b] && top.kind != WindowPane
    requires a.parent == top && a.cells == [] && a.kind == WindowPane
    requires b.parent == top && b.cells == [] && b.kind == WindowPane
    ensures var s := Shape(top, [LeafShape(a), LeafShape(b)]);
            && Linked(s, parent) && Distinct(s) && Cells(s) == {top, a, b}
            && TreeOf(s) == Node(top.kind.dir, top.sx, top.sy, top.xoff, top.yoff, [CellLeaf(a), CellLeaf(b)])
  {
    hide Linked, Distinct, Cells, CellsAll, TreeOf, TreesOf;
    var s := Shape(top, [LeafShape(a), LeafShape(b)]);
    LeafLinked(a, top);
    LeafLinked(b, top);
    PairShape(top, a, b);
    BuildLinked(s, parent);
    BuildTrees(s.kids, [CellLeaf(a), CellLeaf(b)]);
    TreeHere(s);
  }

  // A child's space and its separator to the neighbour.
  method MergeSpace(lc: Cell, lcparent: Cell, ghost sh: Shape, ghost parent: Cell?, ghost n: nat, ghost t: Tree)
    requires Linked(sh, parent) && Distinct(sh) && TreeOf(sh) == t && n < |sh.kids| && sh.kids[n] == LeafShape(lc)
    requires lcparent == sh.cell && C.Closable(t, n) && t.Node? && n < |t.kids| && t.kids[n].Leaf?
    modifies CellsAll(sh.kids)`sx, CellsAll(sh.kids)`sy
    ensures var d, j := t.dir, C.Heir(n);
            && j < |t.kids| && Inhabited(t.kids[j])
            && Size(t.kids[n], d) + 1 >= -Check(t.kids[j], d)
            && TreeOf(sh) == t.(kids := t.kids[j := Adjust(t.kids[j], d, Size(t.kids[n], d) + 1)])
  {
    hide Linked, Distinct, Cells, CellsAll, TreeOf, TreesOf, KidsExcept, Siblings, C.Closable, Adjust, Check, Inhabited;
    OpenChild(sh, parent, n);
    LeafLinks(lc, sh.cell);
    TreeHere(sh);
    SelfOnly(sh);
    C.ClosableFacts(t, n);
    var i := IndexIn(lcparent.cells, lc);
    var other := if i == 0 then 1 else i - 1;
    if lcparent.kind == Container(LeftRight) {
      ResizeAdjustChild(lcparent, LeftRight, lc.sx + 1, other, sh, parent, t.kids);
    } else {
      ResizeAdjustChild(lcparent, TopBottom, lc.sy + 1, other, sh, parent, t.kids);
    }
    TreeHere(sh);
  }

  // TAILQ_REMOVE
  method DropChild(lc: Cell, lcparent: Cell, ghost sh: Shape, ghost parent: Cell?, ghost n: nat, ghost t: Tree)
    returns (ghost s: Shape)
    requires Linked(sh, parent) && Distinct(sh) && TreeOf(sh) == t && n < |sh.kids| && sh.kids[n] == LeafShape(lc)
    requires lcparent == sh.cell
    modifies sh.cell`cells
    ensures s == sh.(kids := sh.kids[..n] + sh.kids[n + 1..])
    ensures Linked(s, parent) && Distinct(s) && Cells(s) == Cells(sh) - {lc}
    ensures t.Node? && n < |t.kids| && TreeOf(s) == t.(kids := C.Without(t.kids, n))
    ensures |lcparent.cells| == |s.kids|
  {
    hide Linked, Distinct, Cells, CellsAll, TreeOf, TreesOf, KidsExcept, Siblings;
    OpenChild(sh, parent, n);
    KidsCount(sh, n, t);
    var i := IndexIn(lcparent.cells, lc);
    lcparent.cells := lcparent.cells[..i] + lcparent.cells[i + 1..];
    s := sh.(kids := sh.kids[..n] + sh.kids[n + 1..]);
    assert s.kids == sh.kids[..n] + [] + sh.kids[n + 1..];
    JoinKids(sh, parent, n, t, [], []);
    RemoveShape(sh, n);
    LeafShapeFacts(lc);
    assert t.kids[..n] + [] + t.kids[n + 1..] == C.Without(t.kids, n);
  }

  // Take a leaf out of its parent's list, its space going to a neighbour.
  method TakeOut(lc: Cell, lcparent: Cell, ghost sh: Shape, ghost parent: Cell?, ghost n: nat, ghost t: Tree)
    returns (ghost s: Shape)
    requires Linked(sh, parent) && Distinct(sh) && TreeOf(sh) == t && n < |sh.kids| && sh.kids[n] == LeafShape(lc)
    requires lcparent == sh.cell && C.Closable(t, n) && t.Node? && n < |t.kids| && t.kids[n].Leaf?
    modifies Cells(sh)`sx, Cells(sh)`sy, sh.cell`cells
    ensures s == sh.(kids := sh.kids[..n] + sh.kids[n + 1..])
    ensures Linked(s, parent) && Distinct(s) && Cells(s) == Cells(sh) - {lc}
    ensures TreeOf(s) == t.(kids := C.KidsAfterClose(t, n)) && |lcparent.cells| == |s.kids|
  {
    hide Linked, Distinct, Cells, CellsAll, TreeOf, TreesOf, C.Closable, C.KidsAfterClose, Adjust, Check, Inhabited;
    AllAllocated(sh);
    SelfOnly(sh);
    C.ClosableFacts(t, n);
    MergeSpace(lc, lcparent, sh, parent, n, t);
    s := DropChild(lc, lcparent, sh, parent, n, TreeOf(sh));
  }

  // The only child left, hung below its parent's parent.
  method Reparent(lc: Cell, lcparent: Cell, ghost s: Shape, ghost parent: Cell?)
    requires Linked(s, parent) && Distinct(s) && |s.kids| == 1 && lcparent == s.cell && lc == s.kids[0].cell
    modifies lc`parent
    ensures lc.parent == parent && Linked(s.kids[0], parent)
  {
    hide Linked, Distinct, Cells, CellsAll;
    AllAllocated(s);
    ghost var k := s.kids[0];
    ChildLinked(s, parent, 0);
    ChildCells(s, 0);
    LinkedParent(s, parent);
    KidsApart(k, s.cell);
    lc.parent := lcparent.parent;
    BuildLinked(k, parent);
  }

  lemma KidsApart(sh: Shape, parent: Cell?)
    requires Linked(sh, parent) && Distinct(sh)
    ensures LinkedHere(sh, parent)
    ensures forall i :: 0 <= i < |sh.kids| ==> Linked(sh.kids[i], sh.cell) && sh.cell !in Cells(sh.kids[i])
  {}

  // Put a cell at the top left corner; it is the new root.
  method MoveToCorner(lc: Cell, ghost sh: Shape, ghost t: Tree)
    requires lc == sh.cell && Distinct(sh) && TreeOf(sh) == t
    modifies lc`xoff, lc`yoff
    ensures TreeOf(sh) == LayoutOffsets.Moved(t, 0, 0)
  {
    hide TreeOf, TreesOf, Distinct, Cells, CellsAll;
    AllAllocated(sh);
    SelfOnly(sh);
    TreeHere(sh);
    lc.xoff := 0;
    lc.yoff := 0;
    TreeHere(sh);
  }

  class Window {
    var sx: int
    var sy: int
    var root: Cell
    ghost var shape: Shape
    ghost var panes: set<Pane>

    /** The cells form one tree with the root on top. */
    ghost predicate Structure()
      reads this, Cells(shape)
    {
      root == shape.cell && Linked(shape, null) && Distinct(shape)
    }

    /** Panes and the leaves that hold them point at each other. */
    ghost predicate PanesLinked()
      reads this`shape, this`panes, Cells(shape)`wp, Cells(shape)`kind, panes`layoutCell
    {
      && (forall c :: c in Cells(shape) && c.wp != null ==>
            c.kind == WindowPane && c.wp in panes && c.wp.layoutCell == c)
      && (forall w :: w in panes ==>
            w.layoutCell != null && w.layoutCell in Cells(shape) && w.layoutCell.wp == w)
    }

    /** The window as a value. */
    ghost function State(): W.Window
      reads this, Cells(shape)
    {
      W.Window(sx, sy, TreeOf(shape))
    }

    ghost predicate Valid()
      reads this, Cells(shape), panes
    {
      Structure() && PanesLinked() && W.Invariant(State())
    }

    // layout_init
    constructor (sx: int, sy: int, wp: Pane)
      requires sx >= 1 && sy >= 1
      modifies wp
      ensures Valid() && State() == W.Init(sx, sy, wp.id) && panes == {wp}
      ensures fresh(Cells(shape))
    {
      var lc := new Cell(null);
      this.sx, this.sy := sx, sy;
      root := lc;
      shape := Shape(lc, []);
      panes := {wp};
      new;
      SetCellSize(lc, sx, sy, 0, 0);
      wp.layoutCell := lc;
      lc.wp := wp;
      W.InitInvariant(sx, sy, wp.id);
    }

    // layout_resize, then window_resize.
    method Resize(nsx: int, nsy: int)
      requires Valid()
      modifies this`sx, this`sy
      modifies Cells(shape)`sx, Cells(shape)`sy, Cells(shape)`xoff, Cells(shape)`yoff
      ensures Valid() && State() == W.Step(old(State()), W.Resize(nsx, nsy))
    {
      hide PanesLinked, Linked, Distinct, Cells, CellsAll, TreeOf, TreesOf, Placed, W.OneLeafPerPane, W.Exact, W.ResizeAxis, W.ResizeTree, Fits, Inhabited, Branching, LayoutOffsets.Positive;
      AllAllocated(shape);
      SelfOnly(shape);
      ghost var w := State();
      ghost var a := W.ResizeAxis(w.root, LeftRight, w.sx, nsx);
      W.StepKeeps(w, W.Resize(nsx, nsy));
      W.AxisResized(w.root, LeftRight, w.sx, nsx);
      W.ResizeTreeIs(w, nsx, nsy);
      ResizeAxis(root, LeftRight, sx, nsx, shape, w.root);
      ResizeAxis(root, TopBottom, sy, nsy, shape, a);
      FixOffsets(root, shape, null);
      sx, sy := nsx, nsy;
    }

    // layout_resize_pane; p is where the pane's cell is in the tree.
    method ResizePane(wp: Pane, d: Direction, change: int, ghost p: Path)
      requires Valid() && wp in panes && IsShapePath(shape, p) && ShapeAt(shape, p).cell == wp.layoutCell
      modifies Cells(shape)`sx, Cells(shape)`sy, Cells(shape)`xoff, Cells(shape)`yoff
      ensures Valid() && IsPath(old(State()).root, p) && At(old(State()).root, p).Leaf?
      ensures State() == W.Step(old(State()), W.ResizePane(p, d, change))
    {
      hide PanesLinked, Linked, Distinct, Cells, CellsAll, TreeOf, TreesOf, Placed, W.OneLeafPerPane, R.ResizedKids,
           Fits, Inhabited, Branching, LayoutOffsets.Positive, LinkedAround, MatchesAround, Around,
           ShapeAt, IsShapePath, ParentAt, Replace, W.Invariant, LayoutOffsets.Put, Tiled, R.AnchorFrom;
      AllAllocated(shape);
      SelfOnly(shape);
      ghost var w := State();
      PaneLeaf(wp, p);
      W.InvariantSound(w);
      W.StepKeeps(w, W.ResizePane(p, d, change));
      ghost var k;
      var lc, lcparent;
      lc, lcparent, k := FindContainer(wp.layoutCell, d, p, w.root);
      if lcparent == null {
        return;
      }

      ResizeFound(lc, lcparent, d, change, p, k, w);
    }

    // The border moved is the one after the cell, so the last cell has none.
    method ResizeFound(
      lc: Cell, lcparent: Cell, d: Direction, change: int, ghost p: Path, ghost k: nat, ghost w: W.Window)
      requires Structure() && C.Sound(w.root) && State() == w && IsPath(w.root, p) && k == R.Anchor(w.root, p, d)
      requires IsShapePath(shape, p[..k]) && ShapeAt(shape, p[..k]).cell == lcparent && lcparent.kind == Container(d)
      requires p[k] < |ShapeAt(shape, p[..k]).kids| && ShapeAt(shape, p[..k]).kids[p[k]].cell == lc
      modifies Cells(shape)`sx, Cells(shape)`sy, Cells(shape)`xoff, Cells(shape)`yoff
      ensures Structure() && State() == W.Window(w.sx, w.sy, R.ResizePane(w.root, p, d, change))
    {
      hide Linked, Distinct, Cells, CellsAll, TreeOf, TreesOf, R.ResizedKids, Fits, Inhabited, Branching,
           LayoutOffsets.Positive, ShapeAt, IsShapePath, ParentAt, Replace, LayoutOffsets.Put, Tiled, R.AnchorFrom;
      AllAllocated(shape);
      SelfOnly(shape);
      ContainerRow(shape, p[..k], w.root);
      ChildIndex(ShapeAt(shape, p[..k]), ParentAt(shape, null, p[..k]), p[k]);
      var i := IndexIn(lcparent.cells, lc);
      if i == |lcparent.cells| - 1 {
        i := i - 1;
      }
      ResizeIn(lcparent, d, i, change, p, k, w);
      FixOffsets(root, shape, null);
    }

    // Up the links to the innermost container that runs along d, if any.
    method FindContainer(from: Cell, d: Direction, ghost p: Path, ghost t: Tree)
      returns (lc: Cell, lcparent: Cell?, ghost k: int)
      requires Structure() && TreeOf(shape) == t && IsShapePath(shape, p) && ShapeAt(shape, p).cell == from
      ensures Structure() && TreeOf(shape) == t && IsPath(t, p) && k == R.Anchor(t, p, d)
      ensures lcparent == null <==> k == -1
      ensures k >= 0 ==> IsShapePath(shape, p[..k]) && ShapeAt(shape, p[..k]).cell == lcparent
                         && lcparent.kind == Container(d)
                         && p[k] < |ShapeAt(shape, p[..k]).kids| && ShapeAt(shape, p[..k]).kids[p[k]].cell == lc
    {
      hide Linked, Distinct, Cells, CellsAll, TreeOf, TreesOf, IsShapePath, ShapeAt, ParentAt, IsPath, At, R.AnchorFrom;
      AllAllocated(shape);
      lc := from;
      k := |p|;
      assert p[..k] == p;
      Up(shape, p, k, d, t);
      lcparent := lc.parent;
      while lcparent != null && lcparent.kind != Container(d)
        invariant 0 <= k <= |p| && IsShapePath(shape, p[..k]) && ShapeAt(shape, p[..k]).cell == lc
        invariant lcparent == lc.parent == ParentAt(shape, null, p[..k])
        invariant R.AnchorFrom(t, p, d, k) == R.Anchor(t, p, d)
        decreases k
      {
        Up(shape, p, k, d, t);
        Up(shape, p, k - 1, d, t);
        lc := lcparent;
        lcparent := lc.parent;
        k := k - 1;
      }
      Up(shape, p, k, d, t);
      k := k - 1;
    }

    // Resize within the container at p[..k] and put the tree together again.
    method ResizeIn(lcparent: Cell, d: Direction, i: nat, change: int, ghost p: Path, ghost k: nat, ghost w: W.Window)
      requires Structure() && C.Sound(w.root) && State() == w && k < |p| && IsShapePath(shape, p[..k])
      requires ShapeAt(shape, p[..k]).cell == lcparent && lcparent.kind == Container(d) && i + 1 < |lcparent.cells|
      requires IsPath(w.root, p[..k]) && At(w.root, p[..k]).Node? && At(w.root, p[..k]).dir == d
      requires p[k] < |At(w.root, p[..k]).kids| && |At(w.root, p[..k]).kids| >= 2
      requires i == R.Target(At(w.root, p[..k]).kids, p[k])
      requires R.Row(At(w.root, p[..k]).kids, d, Size(At(w.root, p[..k]), Other(d)))
      modifies Cells(shape)`sx, Cells(shape)`sy
      ensures Structure()
      ensures var c := At(w.root, p[..k]);
              TreeOf(shape) == Replace(w.root, p[..k], c.(kids := R.ResizedKids(c, p[k], change)))
    {
      hide Linked, Distinct, Cells, CellsAll, TreeOf, TreesOf, R.Row, R.GrowKid, R.ShrinkKid,
           LinkedAround, MatchesAround, Around;
      ghost var q := p[..k];
      ghost var sh, parent := ShapeAt(shape, q), ParentAt(shape, null, q);
      ghost var c := At(w.root, q);
      AllAllocated(shape);
      AllAllocated(sh);
      SubtreeLinked(shape, null, q);
      SubtreeDistinct(shape, q);
      SelfOnly(sh);
      SplitAround(shape, null, q);
      AroundDisjoint(shape, q);
      ChildrenLinked(sh, parent);
      TreeHere(sh);
      ghost var r := ResizeRow(lcparent, d, i, change, sh, parent, c.kids, Size(c, Other(d)));
      TreeHere(sh);
      JoinTree(shape, null, q, sh, w.root);
      ReplaceShapeSelf(shape, q);
    }

    // layout_split_pane with size given as a hint. The new cell has no pane
    // until layout_assign_pane.
    method SplitPane(wp: Pane, d: Direction, hint: int, before: bool, ghost p: Path)
      returns (lcnew: Cell?, ghost q: Path)
      requires Valid() && wp in panes && IsShapePath(shape, p) && ShapeAt(shape, p).cell == wp.layoutCell
      modifies this`root, this`shape, Cells(shape)
      ensures IsPath(old(State()).root, p) && At(old(State()).root, p).Leaf?
      ensures lcnew == null ==> State() == old(State()) && S.SplitTree(State().root, p, d, hint, before) == None
      ensures lcnew == null ==> Valid() && shape == old(shape)
      ensures lcnew != null ==>
                Structure() && PanesLinked() && sx == old(sx) && sy == old(sy) && panes == old(panes)
                && S.SplitTree(old(State()).root, p, d, hint, before) == Some((TreeOf(shape), q))
                && IsShapePath(shape, q) && ShapeAt(shape, q).cell == lcnew
                && fresh(lcnew) && lcnew.kind == WindowPane && lcnew.wp == null
                && fresh(Cells(shape) - old(Cells(shape)))
    {
      hide Linked, Distinct, Cells, CellsAll, TreeOf, TreesOf, S.SplitContainer, Replace,
           C.Sound, Placed, W.OneLeafPerPane, W.Covers;
      AllAllocated(shape);
      lcnew := null;
      q := [];
      ghost var t := TreeOf(shape);
      var lc: Cell := wp.layoutCell;
      LeafFacts(wp, p);
      if (if d == LeftRight then lc.sx else lc.sy) < PANE_MINIMUM * 2 + 1 {
        return;
      }
      if lc.parent != null && lc.parent.kind == Container(d) {
        lcnew, q := SplitJoin(lc, d, hint, before, p, t);
      } else {
        lcnew, q := SplitNew(lc, d, hint, before, p, t);
      }
    }

    lemma LeafFacts(wp: Pane, p: Path)
      requires Structure() && PanesLinked() && wp in panes
      requires IsShapePath(shape, p) && ShapeAt(shape, p).cell == wp.layoutCell
      ensures var lc, t := wp.layoutCell, TreeOf(shape);
              && lc != null && lc.kind == WindowPane && lc.wp == wp && lc.cells == []
              && ShapeAt(shape, p) == LeafShape(lc) && lc.parent == ParentAt(shape, null, p)
              && IsPath(t, p) && At(t, p) == Leaf(lc.sx, lc.sy, lc.xoff, lc.yoff, Some(wp.id))
              && (p != [] ==> p[|p| - 1] >= 0 && IsShapePath(shape, p[..|p| - 1])
                              && lc.parent == ShapeAt(shape, p[..|p| - 1]).cell)
              && forall d :: S.Joins(t, p, d) <==> lc.parent != null && lc.parent.kind == Container(d)
    {
      SubtreeLinked(shape, null, p);
      TreeHere(ShapeAt(shape, p));
      if p != [] {
        var q := p[..|p| - 1];
        ParentIsShape(shape, null, p);
        SubtreeLinked(shape, null, q);
        TreeHere(ShapeAt(shape, q));
      }
    }

    // A split along the container the cell is in.
    method SplitJoin(lc: Cell, d: Direction, hint: int, before: bool, ghost p: Path, ghost t: Tree)
      returns (lcnew: Cell, ghost q: Path)
      requires Structure() && TreeOf(shape) == t && p != []
      requires IsShapePath(shape, p) && ShapeAt(shape, p) == LeafShape(lc)
      requires IsPath(t, p) && At(t, p).Leaf? && S.CanSplit(At(t, p), d) && S.Joins(t, p, d)
      modifies this`root, this`shape, Cells(shape)`sx, Cells(shape)`sy, Cells(shape)`xoff, Cells(shape)`yoff,
               Cells(shape)`parent, Cells(shape)`cells
      ensures Structure() && NewCells(old(Cells(shape)))
      ensures S.SplitTree(t, p, d, hint, before) == Some((TreeOf(shape), q))
      ensures IsShapePath(shape, q) && ShapeAt(shape, q).cell == lcnew
      ensures fresh(lcnew) && lcnew.kind == WindowPane && lcnew.wp == null
      ensures fresh(Cells(shape) - old(Cells(shape)))
    {
      hide Linked, Distinct, Cells, CellsAll, TreeOf, TreesOf, LinkedAround, MatchesAround, Around, Inhabited;
      ghost var q0, n := p[..|p| - 1], p[|p| - 1];
      ParentIsShape(shape, null, p);
      OpenAt(shape, q0);
      OpenAt(shape, p);
      assert S.SplitPoint(t, p, d) == q0;
      ghost var sh := ShapeAt(shape, q0);
      ghost var s, m;
      lcnew, s, m := JoinCells(lc, d, hint, before, sh, ParentAt(shape, null, q0), n, At(t, q0));
      CloseAt(shape, q0, s, t);
      ReplacedShapeAt(shape, q0, s, m);
      shape := ReplaceShape(shape, q0, s);
      q := q0 + [m];
    }

    // A new container in the cell's place, holding it and the new cell.
    method SplitNew(lc: Cell, d: Direction, hint: int, before: bool, ghost p: Path, ghost t: Tree)
      returns (lcnew: Cell, ghost q: Path)
      requires Structure() && TreeOf(shape) == t
      requires IsShapePath(shape, p) && ShapeAt(shape, p) == LeafShape(lc)
      requires IsPath(t, p) && At(t, p).Leaf? && S.CanSplit(At(t, p), d) && !S.Joins(t, p, d)
      modifies this`root, this`shape, Cells(shape)`sx, Cells(shape)`sy, Cells(shape)`xoff, Cells(shape)`yoff,
               Cells(shape)`parent, Cells(shape)`cells
      ensures Structure() && NewCells(old(Cells(shape)))
      ensures S.SplitTree(t, p, d, hint, before) == Some((TreeOf(shape), q))
      ensures IsShapePath(shape, q) && ShapeAt(shape, q).cell == lcnew
      ensures fresh(lcnew) && lcnew.kind == WindowPane && lcnew.wp == null
      ensures fresh(Cells(shape) - old(Cells(shape)))
    {
      hide Linked, Distinct, Cells, CellsAll, TreeOf, TreesOf, LinkedAround, MatchesAround, Around, Inhabited;
      OpenAt(shape, p);
      assert S.SplitPoint(t, p, d) == p;
      LeafLinks(lc, ParentAt(shape, null, p));
      if lc.parent == null {
        NoParent(shape, p);
        lcnew, q := SplitRoot(lc, d, hint, before, t);
      } else {
        lcnew, q := SplitBelow(lc, d, hint, before, p, t);
      }
    }

    lemma NoParent(sh: Shape, p: Path)
      requires IsShapePath(sh, p) && ParentAt(sh, null, p) == null
      ensures p == []
    {
      if p != [] { ParentIsShape(sh, null, p); }
    }

    // The cell was the root.
    method SplitRoot(lc: Cell, d: Direction, hint: int, before: bool, ghost t: Tree)
      returns (lcnew: Cell, ghost q: Path)
      requires Structure() && TreeOf(shape) == t && shape == LeafShape(lc)
      requires t.Leaf? && S.CanSplit(t, d) && !S.Joins(t, [], d)
      modifies this`root, this`shape, Cells(shape)`sx, Cells(shape)`sy, Cells(shape)`xoff, Cells(shape)`yoff,
               Cells(shape)`parent, Cells(shape)`cells
      ensures Structure() && NewCells(old(Cells(shape)))
      ensures S.SplitTree(t, [], d, hint, before) == Some((TreeOf(shape), q))
      ensures IsShapePath(shape, q) && ShapeAt(shape, q).cell == lcnew
      ensures fresh(lcnew) && lcnew.kind == WindowPane && lcnew.wp == null
      ensures fresh(Cells(shape) - old(Cells(shape)))
    {
      hide Linked, Distinct, Cells, CellsAll, TreeOf, TreesOf;
      LeafShapeFacts(lc);
      LeafLinks(lc, null);
      ghost var m;
      root, lcnew, shape, m := NewContainer(lc, d, hint, before, null, t);
      q := [m];
      assert [m][1..] == [];
      assert S.SplitPoint(t, [], d) == [] && [] + [m] == [m];
    }

    // The cell had a parent, which runs in the other direction.
    method SplitBelow(lc: Cell, d: Direction, hint: int, before: bool, ghost p: Path, ghost t: Tree)
      returns (lcnew: Cell, ghost q: Path)
      requires Structure() && TreeOf(shape) == t && p != []
      requires IsShapePath(shape, p) && ShapeAt(shape, p) == LeafShape(lc) && lc.parent == ParentAt(shape, null, p) != null
      requires IsPath(t, p) && At(t, p).Leaf? && S.CanSplit(At(t, p), d) && !S.Joins(t, p, d)
      modifies this`root, this`shape, Cells(shape)`sx, Cells(shape)`sy, Cells(shape)`xoff, Cells(shape)`yoff,
               Cells(shape)`parent, Cells(shape)`cells
      ensures Structure() && NewCells(old(Cells(shape)))
      ensures S.SplitTree(t, p, d, hint, before) == Some((TreeOf(shape), q))
      ensures IsShapePath(shape, q) && ShapeAt(shape, q).cell == lcnew
      ensures fresh(lcnew) && lcnew.kind == WindowPane && lcnew.wp == null
      ensures fresh(Cells(shape) - old(Cells(shape)))
    {
      hide Linked, Distinct, Cells, CellsAll, TreeOf, TreesOf, LinkedAround, MatchesAround, Around,
           Inhabited, S.Halves, S.SplitTree, Replace;
      OpenAt(shape, p);
      LeafShapeFacts(lc);
      var lcparent;
      ghost var s, m;
      lcparent, lcnew, s, m := NewContainer(lc, d, hint, before, ParentAt(shape, null, p), At(t, p));
      LinkedParent(s, ParentAt(shape, null, p));
      ReplacedShapeAt(shape, p, s, m);
      SplitApart(t, p, d, hint, before);
      HangBelow(lc, lcparent, p, s, t);
      q := p + [m];
    }

    lemma ReplaceTreeBelow(t: Tree, p: Path, u: Tree)
      requires IsPath(t, p) && p != []
      ensures var q0, n := p[..|p| - 1], p[|p| - 1];
              IsPath(t, q0) && At(t, q0).Node? && n < |At(t, q0).kids|
              && Replace(t, q0, At(t, q0).(kids := At(t, q0).kids[n := u])) == Replace(t, p, u)
    {
      var q0, n := p[..|p| - 1], p[|p| - 1];
      PathPrefix(t, p, |p| - 1);
      assert p == q0 + [n] && [n][1..] == [];
      ReplaceConcat(t, q0, [n], u);
    }

    /** The cells added since are new and hold no pane; none is gone. */
    ghost predicate NewCells(was: set<Cell>)
      reads this`shape, Cells(shape)`wp
    {
      was <= Cells(shape) && forall c :: c in Cells(shape) - was ==> c.wp == null
    }

    // layout_assign_pane
    method AssignPane(lc: Cell, wp: Pane, ghost q: Path, ghost t: Tree)
      requires Structure() && PanesLinked() && TreeOf(shape) == t && wp !in panes
      requires IsShapePath(shape, q) && ShapeAt(shape, q).cell == lc && lc.kind == WindowPane && lc.wp == null
      modifies this`panes, lc`kind, lc`cells, lc`wp, wp`layoutCell
      ensures Structure() && PanesLinked() && panes == old(panes) + {wp}
      ensures IsPath(t, q) && At(t, q).Leaf? && TreeOf(shape) == S.Assign(t, q, wp.id)
    {
      hide Linked, Distinct, Cells, CellsAll, TreeOf, TreesOf, LinkedAround, MatchesAround, Around, IsShapePath, ShapeAt,
           ParentAt, IsPath, At, Replace;
      OpenAt(shape, q);
      LeafKids(ShapeAt(shape, q), ParentAt(shape, null, q));
      LeafLinks(lc, ParentAt(shape, null, q));
      LeafShapeFacts(lc);
      lc.kind := WindowPane;
      lc.cells := [];
      wp.layoutCell := lc;
      lc.wp := wp;
      panes := panes + {wp};
      LeafLinked(lc, ParentAt(shape, null, q));
      CloseAt(shape, q, LeafShape(lc), t);
      ReplaceShapeSelf(shape, q);
    }

    // A split as a command makes it: layout_split_pane, then the new pane is
    // assigned to the new cell.
    method Split(wp: Pane, d: Direction, hint: int, before: bool, newwp: Pane, ghost p: Path) returns (ok: bool)
      requires Valid() && wp in panes && IsShapePath(shape, p) && ShapeAt(shape, p).cell == wp.layoutCell
      requires newwp !in panes && Some(newwp.id) !in Panes(State().root)
      modifies this`root, this`shape, this`panes, Cells(shape), newwp`layoutCell
      ensures Valid() && W.Enabled(old(State()), W.Split(p, d, hint, before, newwp.id))
      ensures State() == W.Step(old(State()), W.Split(p, d, hint, before, newwp.id))
      ensures ok <==> S.CanSplit(At(old(State()).root, p), d)
      ensures panes == if ok then old(panes) + {newwp} else old(panes)
      ensures fresh(Cells(shape) - old(Cells(shape)))
    {
      hide Linked, Distinct, Cells, CellsAll, TreeOf, TreesOf, PanesLinked, S.SplitContainer, S.Assign, Replace,
           C.Sound, Placed, W.OneLeafPerPane, W.Covers;
      ghost var w := State();
      PaneLeaf(wp, p);
      W.StepKeeps(w, W.Split(p, d, hint, before, newwp.id));
      ghost var q;
      var lcnew;
      lcnew, q := SplitPane(wp, d, hint, before, p);
      ok := lcnew != null;
      if ok {
        AssignPane(lcnew, newwp, q, TreeOf(shape));
      }
    }

    // layout_close_pane on a pane that is not the last one.
    method Close(wp: Pane, ghost p: Path)
      requires Valid() && wp in panes && IsShapePath(shape, p) && ShapeAt(shape, p).cell == wp.layoutCell && p != []
      modifies this`root, this`shape, this`panes, Cells(shape), wp`layoutCell
      ensures Valid() && W.Enabled(old(State()), W.Close(p))
      ensures State() == W.Step(old(State()), W.Close(p))
      ensures panes == old(panes) - {wp} && wp.layoutCell == null && Cells(shape) <= old(Cells(shape))
    {
      hide Linked, Distinct, Cells, CellsAll, TreeOf, TreesOf, C.Sound, Placed, W.OneLeafPerPane, W.Covers,
           C.DestroyTree, LayoutOffsets.Put, IsShapePath, ShapeAt, ParentAt, At, W.Exact;
      ghost var w := State();
      AllAllocated(shape);
      PaneLeaf(wp, p);
      LeafFacts(wp, p);
      W.StepKeeps(w, W.Close(p));
      var lc: Cell := wp.layoutCell;
      ghost var gone := DestroyCell(lc, p, w.root);
      wp.layoutCell := null;
      panes := panes - {wp};
      SelfOnly(shape);
      FixOffsets(root, shape, null);
    }

    // layout_destroy_cell on a cell that is not the root.
    method DestroyCell(lc: Cell, ghost p: Path, ghost t: Tree) returns (ghost gone: set<Cell>)
      requires Structure() && TreeOf(shape) == t && C.CanClose(t, p)
      requires IsShapePath(shape, p) && ShapeAt(shape, p) == LeafShape(lc)
      modifies this`root, this`shape, Cells(shape)`sx, Cells(shape)`sy, Cells(shape)`xoff, Cells(shape)`yoff,
               Cells(shape)`parent, Cells(shape)`cells
      ensures Structure() && Cells(shape) == old(Cells(shape)) - gone && lc in gone
      ensures forall c :: c in gone && c != lc ==> c in old(Cells(shape)) && c.kind != WindowPane
      ensures TreeOf(shape) == C.DestroyTree(t, p)
    {
      hide Linked, Distinct, Cells, CellsAll, TreeOf, TreesOf, LinkedAround, MatchesAround, Around, Inhabited,
           C.Sound, C.Closable, C.KidsAfterClose, C.AfterClose, C.CanClose, C.DestroyTree, LayoutOffsets.Moved, Replace;
      gone := {lc};
      ClosePoint(t, p);
      ghost var q0, n := p[..|p| - 1], p[|p| - 1];
      ParentIsShape(shape, null, p);
      OpenAt(shape, p);
      OpenAt(shape, q0);
      ghost var sh, parent, c := ShapeAt(shape, q0), ParentAt(shape, null, q0), At(t, q0);
      LeafLinks(lc, ParentAt(shape, null, p));
      TreeHere(sh);
      CollapsedTree(c, n);
      var lcparent: Cell := lc.parent;
      ghost var s := TakeOut(lc, lcparent, sh, parent, n, c);
      if |lcparent.cells| == 1 {
        gone := {lc, lcparent};
        Collapse(lcparent, q0, s, n, c, t);
      } else {
        CloseAt(shape, q0, s, t);
        shape := ReplaceShape(shape, q0, s);
      }
    }

    // The container at q0 has one child left, which takes its place.
    method Collapse(lcparent: Cell, ghost q0: Path, ghost s: Shape, ghost n: nat, ghost c: Tree, ghost t: Tree)
      requires root == shape.cell && Distinct(shape) && IsShapePath(shape, q0) && IsPath(t, q0) && At(t, q0) == c
      requires LinkedAround(shape, null, q0) && MatchesAround(shape, q0, t) && Around(shape, q0) !! Cells(s)
      requires s.cell == lcparent == ShapeAt(shape, q0).cell && Cells(s) <= Cells(ShapeAt(shape, q0))
      requires Linked(s, ParentAt(shape, null, q0)) && Distinct(s) && |s.kids| == 1
      requires C.Closable(c, n) && TreeOf(s) == c.(kids := C.KidsAfterClose(c, n))
      modifies this`root, this`shape, Cells(shape)`xoff, Cells(shape)`yoff, Cells(shape)`parent, Cells(shape)`cells
      ensures Structure() && Cells(shape) == old(Around(shape, q0)) + Cells(s) - {lcparent}
      ensures TreeOf(shape) ==
              if q0 == [] then LayoutOffsets.Moved(C.AfterClose(c, n), 0, 0) else Replace(t, q0, C.AfterClose(c, n))
    {
      hide Linked, Distinct, Cells, CellsAll, TreeOf, TreesOf, LinkedAround, MatchesAround, Around, C.Sound, Inhabited,
           C.Closable, C.KidsAfterClose, Siblings, KidsExcept;
      ghost var parent := ParentAt(shape, null, q0);
      ghost var k := s.kids[0];
      AllAllocated(shape);
      AroundDisjoint(shape, q0);
      OnlyChild(s, parent);
      ChildLinked(s, parent, 0);
      CollapsedTree(c, n);
      var lc := lcparent.cells[0];
      Reparent(lc, lcparent, s, parent);
      ghost var u := TreeOf(k);
      if lc.parent == null {
        NoParent(shape, q0);
        MoveToCorner(lc, k, u);
        root := lc;
        shape := k;
      } else {
        HangBelow(lcparent, lc, q0, k, t);
      }
    }

    // TAILQ_REPLACE in the list of the parent's parent.
    method HangBelow(lcparent: Cell, lc: Cell, ghost q0: Path, ghost k: Shape, ghost t: Tree)
      requires root == shape.cell && Distinct(shape) && IsShapePath(shape, q0) && IsPath(t, q0) && lc == k.cell
      requires LinkedAround(shape, null, q0) && MatchesAround(shape, q0, t) && Around(shape, q0) !! Cells(k)
      requires lcparent == ShapeAt(shape, q0).cell && lc.parent == ParentAt(shape, null, q0) != null
      requires Linked(k, ParentAt(shape, null, q0)) && Distinct(k) && forall c :: c in Cells(shape) ==> allocated(c)
      modifies this`shape, Around(shape, q0)`cells
      ensures Structure() && Cells(shape) == old(Around(shape, q0)) + Cells(k)
      ensures TreeOf(shape) == Replace(t, q0, old(TreeOf(k))) && shape == ReplaceShape(old(shape), q0, k)
    {
      hide Linked, Distinct, Cells, CellsAll, TreeOf, TreesOf, LinkedAround, MatchesAround, Around, Siblings, KidsExcept;
      RootHasNoParent(shape, q0);
      AroundAbove(shape, null, q0, t);
      ghost var q1, m := q0[..|q0| - 1], q0[|q0| - 1];
      ghost var sg, up := ShapeAt(shape, q1), ParentAt(shape, null, q1);
      ParentIsShape(shape, null, q0);
      SubtreeDistinct(shape, q1);
      AroundDisjoint(shape, q1);
      TopCell(sg);
      SiblingsBelow(sg, m);
      AllAllocated(shape);
      AllAllocated(k);
      ghost var u := TreeOf(k);
      var above: Cell := lc.parent;
      ghost var r := ReplaceChild(above, lcparent, lc, sg, up, m, k, At(t, q1));
      CloseAt(shape, q1, r, t);
      ReplaceTreeBelow(t, q0, u);
      ReplaceShapeBelow(shape, q0, k);
      shape := ReplaceShape(shape, q1, r);
    }

    lemma RootHasNoParent(sh: Shape, q: Path)
      requires IsShapePath(sh, q) && ParentAt(sh, null, q) != null
      ensures q != []
    {}

    lemma CollapsedTree(c: Tree, n: nat)
      requires C.Closable(c, n)
      ensures |C.KidsAfterClose(c, n)| == |c.kids| - 1
      ensures C.AfterClose(c, n) == if |c.kids| == 2 then C.KidsAfterClose(c, n)[0]
                                    else c.(kids := C.KidsAfterClose(c, n))
    {}

    lemma OnlyChild(s: Shape, parent: Cell?)
      requires Linked(s, parent) && Distinct(s) && |s.kids| == 1
      ensures Distinct(s.kids[0]) && s.kids[0].cell in Cells(s.kids[0]) && s.cell in Cells(s)
      ensures Cells(s.kids[0]) == Cells(s) - {s.cell} && s.cell != s.kids[0].cell
      ensures forall c :: c in Cells(s) ==> allocated(c)
    {
      SiblingCells(s, 0);
      assert Siblings(s, 0) == {};
      TopCell(s.kids[0]);
      AllAllocated(s);
    }

    lemma ClosePoint(t: Tree, p: Path)
      requires C.CanClose(t, p)
      ensures p != []
      ensures var q, i := p[..|p| - 1], p[|p| - 1];
              && IsPath(t, q) && C.Closable(At(t, q), i) && At(t, q).kids[i] == At(t, p) && At(t, p).Leaf?
              && var u := C.AfterClose(At(t, q), i);
              C.DestroyTree(t, p) == if q == [] && |At(t, q).kids| == 2 then LayoutOffsets.Moved(u, 0, 0)
                                     else Replace(t, q, u)
    {
      var q, i := p[..|p| - 1], p[|p| - 1];
      C.ParentOf(t, p);
      AtKeeps(t, q);
      AtKeeps(t, p);
      LayoutOffsets.PositiveSize(At(t, p), At(t, q).dir);
    }

    lemma PaneLeaf(wp: Pane, p: Path)
      requires Structure() && PanesLinked() && wp in panes
      ensures wp.layoutCell != null
      requires IsShapePath(shape, p) && ShapeAt(shape, p).cell == wp.layoutCell
      ensures IsPath(TreeOf(shape), p) && At(TreeOf(shape), p).Leaf?
    {
      SubtreeLinked(shape, null, p);
      TreeHere(ShapeAt(shape, p));
    }
  }

  /** What surrounds a subtree says what surrounds the one above it. */
  lemma {:induction false} AroundAbove(sh: Shape, parent: Cell?, p: Path, t: Tree)
    requires IsShapePath(sh, p) && p != [] && LinkedAround(sh, parent, p) && MatchesAround(sh, p, t)
    ensures var q, m := p[..|p| - 1], p[|p| - 1];
            && IsShapePath(sh, q) && IsPath(t, q)
            && var sg := ShapeAt(sh, q);
            && LinkedAround(sh, parent, q) && MatchesAround(sh, q, t) && LinkedHere(sg, ParentAt(sh, parent, q))
            && NodeMatches(sg.cell, At(t, q)) && KidsExcept(sg, m, At(t, q))
            && Around(sh, p) == Around(sh, q) + {sg.cell} + Siblings(sg, m)
  {
    hide Linked, TreeOf, TreesOf, Cells, CellsAll, Siblings;
    var q, m := p[..|p| - 1], p[|p| - 1];
    assert p[1..] == [] ==> m == p[0] && q == [];
    if |p| > 1 {
      AroundAbove(sh.kids[p[0]], sh.cell, p[1..], t.kids[p[0]]);
      assert p[1..][..|p| - 2] == q[1..] && q[0] == p[0];
    }
  }

  /** One step from the cell at p[..k] to its parent. */
  lemma Up(sh: Shape, p: Path, k: nat, d: Direction, t: Tree)
    requires Linked(sh, null) && TreeOf(sh) == t && IsShapePath(sh, p) && k <= |p|
    ensures IsPath(t, p) && IsShapePath(sh, p[..k])
    ensures ShapeAt(sh, p[..k]).cell.parent == ParentAt(sh, null, p[..k])
    ensures k == 0 ==> ParentAt(sh, null, p[..k]) == null && R.AnchorFrom(t, p, d, k) == -1
    ensures k > 0 ==>
              var q := p[..k - 1];
              && IsShapePath(sh, q) && IsPath(t, q)
              && ParentAt(sh, null, p[..k]) == ShapeAt(sh, q).cell
              && p[k - 1] < |ShapeAt(sh, q).kids|
              && ShapeAt(sh, q).kids[p[k - 1]] == ShapeAt(sh, p[..k])
              && TreeOf(ShapeAt(sh, q)) == At(t, q)
              && R.AnchorFrom(t, p, d, k) ==
                 if ShapeAt(sh, q).cell.kind == Container(d) then k - 1 else R.AnchorFrom(t, p, d, k - 1)
  {
    hide Linked, TreeOf;
    SubtreeLinked(sh, null, p);
    ShapePrefix(sh, p, k);
    SubtreeLinked(sh, null, p[..k]);
    LinkedParent(ShapeAt(sh, p[..k]), ParentAt(sh, null, p[..k]));
    if k > 0 {
      ShapePrefix(sh, p, k - 1);
      assert p[..k][..k - 1] == p[..k - 1];
      ParentIsShape(sh, null, p[..k]);
      SubtreeLinked(sh, null, p[..k - 1]);
      TreeHere(ShapeAt(sh, p[..k - 1]));
      PathPrefix(t, p, k - 1);
    }
  }

  lemma LinkedParent(sh: Shape, parent: Cell?)
    requires Linked(sh, parent)
    ensures sh.cell.parent == parent
  {}

  lemma {:induction false} ShapePrefix(sh: Shape, p: Path, k: nat)
    requires IsShapePath(sh, p) && k <= |p|
    ensures IsShapePath(sh, p[..k])
  {
    if k > 0 {
      assert p[..k][1..] == p[1..][..k - 1];
      ShapePrefix(sh.kids[p[0]], p[1..], k - 1);
    }
  }

  lemma ContainerRow(sh: Shape, q: Path, t: Tree)
    requires Linked(sh, null) && Distinct(sh) && TreeOf(sh) == t && C.Sound(t) && IsShapePath(sh, q)
    requires ShapeAt(sh, q).cell.kind != WindowPane
    ensures IsPath(t, q) && At(t, q) == TreeOf(ShapeAt(sh, q)) && At(t, q).Node?
    ensures Linked(ShapeAt(sh, q), ParentAt(sh, null, q)) && Distinct(ShapeAt(sh, q))
    ensures var c := At(t, q); |c.kids| >= 2 && R.Row(c.kids, c.dir, Size(c, Other(c.dir)))
    ensures |ShapeAt(sh, q).cell.cells| == |At(t, q).kids| == |ShapeAt(sh, q).kids|
  {
    SubtreeLinked(sh, null, q);
    SubtreeDistinct(sh, q);
    AtKeeps(t, q);
    TreeHere(ShapeAt(sh, q));
    R.SoundRow(At(t, q));
  }

  /** A cell is at one place in its parent's list. */
  lemma ChildIndex(sh: Shape, parent: Cell?, n: nat)
    requires Linked(sh, parent) && Distinct(sh) && n < |sh.kids|
    ensures |sh.cell.cells| == |sh.kids| && sh.cell.cells[n] == sh.kids[n].cell
    ensures forall i :: 0 <= i < |sh.kids| && sh.cell.cells[i] == sh.kids[n].cell ==> i == n
  {
    hide Distinct, Cells, CellsAll, Linked, TreeOf, TreesOf;
    ChildCells(sh, n);
    ChildLinked(sh, parent, n);
    TopCell(sh.kids[n]);
    forall i | 0 <= i < |sh.kids| && i != n ensures sh.cell.cells[i] != sh.kids[n].cell {
      ChildLinked(sh, parent, i);
      TopCell(sh.kids[i]);
    }
  }
}
