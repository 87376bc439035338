// The layout tree as layout.c holds it: cells linked to their parent and
// children, edited in place. Each method is proved against the functions on
// trees in the other layout files.
module LayoutCells {
  import opened Common
  import opened LayoutTree
  import opened LayoutAdjust
  import opened LayoutOffsets

  datatype Kind = Container(dir: Direction) | WindowPane

  class Pane {
    const id: PaneId
    var layoutCell: Cell?

    constructor (id: PaneId)
      ensures this.id == id && layoutCell == null
    {
      this.id := id;
      layoutCell := null;
    }
  }

  class Cell {
    var kind: Kind
    var parent: Cell?
    var sx: int
    var sy: int
    var xoff: int
    var yoff: int
    var wp: Pane?
    var cells: seq<Cell>

    // layout_create_cell
    constructor (parent: Cell?)
      ensures kind == WindowPane && this.parent == parent && wp == null && cells == []
    {
      kind := WindowPane;
      this.parent := parent;
      sx, sy := UINT_MAX, UINT_MAX;
      xoff, yoff := UINT_MAX, UINT_MAX;
      wp := null;
      cells := [];
    }
  }

  // ----- The tree a cell stands for

  /** The cells below a cell, as a value: which cell has which children. */
  datatype Shape = Shape(cell: Cell, kids: seq<Shape>)

  ghost function Cells(sh: Shape): (r: set<Cell>)
    ensures forall i :: 0 <= i < |sh.kids| ==> Cells(sh.kids[i]) <= r
    decreases sh, 1
  {
    {sh.cell} + CellsAll(sh.kids)
  }

  ghost function CellsAll(kids: seq<Shape>): (r: set<Cell>)
    ensures forall i :: 0 <= i < |kids| ==> Cells(kids[i]) <= r
    decreases kids, 0
  {
    set i, c | 0 <= i < |kids| && c in Cells(kids[i]) :: c
  }

  /** No cell occurs twice. */
  ghost predicate Distinct(sh: Shape) {
    && (forall i :: 0 <= i < |sh.kids| ==> Distinct(sh.kids[i]) && sh.cell !in Cells(sh.kids[i]))
    && (forall i, j :: 0 <= i < j < |sh.kids| ==> Cells(sh.kids[i]) !! Cells(sh.kids[j]))
  }

  /** What this cell's own links say. */
  ghost predicate LinkedHere(sh: Shape, parent: Cell?)
    reads sh.cell`parent, sh.cell`cells, sh.cell`kind
  {
    && sh.cell.parent == parent
    && |sh.cell.cells| == |sh.kids|
    && (sh.cell.kind == WindowPane ==> sh.kids == [])
    && forall i :: 0 <= i < |sh.kids| ==> sh.cell.cells[i] == sh.kids[i].cell
  }

  /** The links agree with the shape, and the top cell hangs below `parent`. */
  ghost predicate Linked(sh: Shape, parent: Cell?)
    reads Cells(sh)`parent, Cells(sh)`cells, Cells(sh)`kind
    decreases sh
  {
    && LinkedHere(sh, parent)
    && forall i :: 0 <= i < |sh.kids| ==> Linked(sh.kids[i], sh.cell)
  }

  /** The tree of sizes, offsets and panes. */
  ghost function TreeOf(sh: Shape): Tree
    reads Cells(sh)`kind, Cells(sh)`sx, Cells(sh)`sy, Cells(sh)`xoff, Cells(sh)`yoff, Cells(sh)`wp
    decreases sh, 1
  {
    var c := sh.cell;
    match c.kind
    case WindowPane => Leaf(c.sx, c.sy, c.xoff, c.yoff, if c.wp == null then None else Some(c.wp.id))
    case Container(dir) => Node(dir, c.sx, c.sy, c.xoff, c.yoff, TreesOf(sh.kids))
  }

  ghost function TreesOf(kids: seq<Shape>): (r: seq<Tree>)
    reads CellsAll(kids)`kind, CellsAll(kids)`sx, CellsAll(kids)`sy
    reads CellsAll(kids)`xoff, CellsAll(kids)`yoff, CellsAll(kids)`wp
    ensures |r| == |kids|
    ensures forall i :: 0 <= i < |kids| ==> r[i] == TreeOf(kids[i])
    decreases kids, 2
  {
    hide Cells, CellsAll;
    FromEach(kids);
    EachTree(kids)
  }

  ghost function EachTree(kids: seq<Shape>): (r: seq<Tree>)
    reads CellsAll(kids)`kind, CellsAll(kids)`sx, CellsAll(kids)`sy
    reads CellsAll(kids)`xoff, CellsAll(kids)`yoff, CellsAll(kids)`wp
    ensures |r| == |kids|
    decreases kids, 0
  {
    hide Cells, CellsAll;
    if kids == [] then []
    else
      RestCells(kids);
      [TreeOf(kids[0])] + EachTree(kids[1..])
  }

  lemma {:induction false} FromEach(kids: seq<Shape>)
    ensures forall i :: 0 <= i < |kids| ==> EachTree(kids)[i] == TreeOf(kids[i])
    decreases kids, 1
  {
    hide Cells, CellsAll;
    if kids != [] {
      FromEach(kids[1..]);
      forall i | 0 <= i < |kids| ensures EachTree(kids)[i] == TreeOf(kids[i]) {
        if i > 0 { assert kids[1..][i - 1] == kids[i]; }
      }
    }
  }

  lemma RestCells(kids: seq<Shape>)
    requires kids != []
    ensures Cells(kids[0]) <= CellsAll(kids) && CellsAll(kids[1..]) <= CellsAll(kids)
  {
    hide Cells;
    forall c | c in CellsAll(kids[1..]) ensures c in CellsAll(kids) {
      var i :| 0 <= i < |kids[1..]| && c in Cells(kids[1..][i]);
      assert kids[1..][i] == kids[i + 1];
    }
  }

  lemma ChildrenLinked(sh: Shape, parent: Cell?)
    requires Linked(sh, parent)
    ensures |sh.cell.cells| == |sh.kids| && (sh.cell.kind == WindowPane ==> sh.kids == [])
  {}

  lemma ChildLinked(sh: Shape, parent: Cell?, i: nat)
    requires Linked(sh, parent) && i < |sh.kids|
    ensures |sh.cell.cells| == |sh.kids| && sh.cell.cells[i] == sh.kids[i].cell && sh.cell.kind != WindowPane
    ensures Linked(sh.kids[i], sh.cell)
    ensures TreeOf(sh).Node? && TreeOf(sh).kids == TreesOf(sh.kids) && TreeOf(sh).kids[i] == TreeOf(sh.kids[i])
  {}

  lemma ChildCells(sh: Shape, i: nat)
    requires Distinct(sh) && i < |sh.kids|
    ensures Distinct(sh.kids[i]) && sh.cell !in Cells(sh.kids[i])
    ensures Cells(sh.kids[i]) <= CellsAll(sh.kids) <= Cells(sh)
    ensures forall j :: 0 <= j < |sh.kids| && j != i ==> Cells(sh.kids[i]) !! Cells(sh.kids[j])
  {
    forall j | 0 <= j < |sh.kids| && j != i ensures Cells(sh.kids[i]) !! Cells(sh.kids[j]) {
      assert if i < j then Cells(sh.kids[i]) !! Cells(sh.kids[j]) else Cells(sh.kids[j]) !! Cells(sh.kids[i]);
    }
  }

  lemma AllAllocated(sh: Shape)
    ensures forall c :: c in Cells(sh) ==> allocated(c)
    ensures forall c :: c in CellsAll(sh.kids) ==> allocated(c)
  {
    forall i | 0 <= i < |sh.kids| ensures forall c :: c in Cells(sh.kids[i]) ==> allocated(c) {
      AllAllocated(sh.kids[i]);
    }
  }

  lemma TreeHere(sh: Shape)
    ensures var c := sh.cell;
            TreeOf(sh) == match c.kind
                       case WindowPane => Leaf(c.sx, c.sy, c.xoff, c.yoff, if c.wp == null then None else Some(c.wp.id))
                       case Container(dir) => Node(dir, c.sx, c.sy, c.xoff, c.yoff, TreesOf(sh.kids))
  {}

  // ----- layout_resize_check

  method ResizeCheck(lc: Cell, d: Direction, ghost sh: Shape, ghost parent: Cell?) returns (available: int)
    requires lc == sh.cell && Linked(sh, parent)
    ensures available == Check(TreeOf(sh), d)
    decreases sh
  {
    hide Check, TreeOf, TreesOf, Cells, CellsAll, Linked, Sum, Least;
    AllAllocated(sh);
    SelfIn(sh);
    ChildrenLinked(sh, parent);
    TreeHere(sh);
    CheckHere(TreeOf(sh), d);
    if lc.kind == WindowPane {
      available := if d == LeftRight then lc.sx else lc.sy;
      if available > PANE_MINIMUM {
        available := available - PANE_MINIMUM;
      } else {
        available := 0;
      }
    } else {
      ghost var kids := TreesOf(sh.kids);
      ghost var all := Checks(kids, d);
      assert all[..|all|] == all && all[..0] == [];
      if lc.kind == Container(d) {
        available := 0;
        for i := 0 to |lc.cells|
          invariant available == Sum(all[..i])
        {
          var n := ResizeCheckChild(lc, d, i, sh, parent, kids);
          SumLast(all, i);
          available := available + n;
        }
      } else {
        var minimum := UINT_MAX;
        for i := 0 to |lc.cells|
          invariant minimum == Least(all[..i], UINT_MAX)
        {
          available := ResizeCheckChild(lc, d, i, sh, parent, kids);
          LeastLast(all, i, UINT_MAX);
          // UINT_MAX stands for "none seen yet", above any size.
          if i == 0 || available < minimum {
            minimum := available;
          }
        }
        available := minimum;
      }
    }
  }

  lemma SelfIn(sh: Shape)
    ensures sh.cell in Cells(sh) && CellsAll(sh.kids) <= Cells(sh)
  {}

  lemma CheckHere(t: Tree, d: Direction)
    ensures Check(t, d) ==
            match t
            case Leaf(_, _, _, _, _) => if Size(t, d) > PANE_MINIMUM then Size(t, d) - PANE_MINIMUM else 0
            case Node(dir, _, _, _, _, kids) =>
              if dir == d then Sum(Checks(kids, d)) else Least(Checks(kids, d), UINT_MAX)
    ensures Sum([]) == 0 && Least([], UINT_MAX) == UINT_MAX
  {}

  method ResizeCheckChild(lc: Cell, d: Direction, i: nat, ghost sh: Shape, ghost parent: Cell?, ghost kids: seq<Tree>)
    returns (available: int)
    requires lc == sh.cell && Linked(sh, parent) && i < |sh.kids| && TreesOf(sh.kids) == kids
    ensures available == Check(kids[i], d)
    decreases sh, 0
  {
    AllAllocated(sh.kids[i]);
    hide Check, TreeOf, TreesOf, Cells, CellsAll, Linked;
    ChildLinked(sh, parent, i);
    available := ResizeCheck(lc.cells[i], d, sh.kids[i], lc);
  }

  // ----- layout_resize_adjust

  method ResizeAdjust(lc: Cell, d: Direction, change: int, ghost sh: Shape, ghost parent: Cell?)
    requires lc == sh.cell && Linked(sh, parent) && Distinct(sh)
    requires Inhabited(TreeOf(sh)) && change >= -Check(TreeOf(sh), d)
    modifies Cells(sh)`sx, Cells(sh)`sy
    ensures TreeOf(sh) == Adjust(old(TreeOf(sh)), d, change)
    decreases sh, 3
  {
    hide TreeOf, TreesOf, Check, Adjust, Inhabited, Linked, Distinct, Cells, CellsAll, RoundRobin, CanShare;
    AllAllocated(sh);
    ghost var t := TreeOf(sh);
    SelfOnly(sh);
    TreeHere(sh);
    AdjustNode(t, d, change);
    if d == LeftRight {
      lc.sx := lc.sx + change;
    } else {
      lc.sy := lc.sy + change;
    }
    assert TreesOf(sh.kids) == old(TreesOf(sh.kids));

    if lc.kind != Container(d) {
      // A pane, or children that run in a different direction.
      ResizeAcross(lc, d, change, sh, parent, t);
    } else {
      // Children in the same direction.
      ResizeAlong(lc, d, change, sh, parent, t.kids);
    }
    TreeHere(sh);
  }

  lemma AdjustNode(t: Tree, d: Direction, change: int)
    requires Inhabited(t) && change >= -Check(t, d)
    ensures t.Leaf? ==> Adjust(t, d, change) == SetSize(t, d, Size(t, d) + change)
    ensures t.Node? && t.dir == d ==>
              CanShare(t.kids, d, change)
              && Adjust(t, d, change) == Refit(t, d, Size(t, d) + change, RoundRobin(t.kids, d, change, 0))
    ensures t.Node? && t.dir != d ==>
              var r := Adjust(t, d, change);
              |r.kids| == |t.kids|
              && r == Refit(t, d, Size(t, d) + change, r.kids)
              && forall j :: 0 <= j < |t.kids| ==>
                   Inhabited(t.kids[j]) && change >= -Check(t.kids[j], d)
                   && r.kids[j] == Adjust(t.kids[j], d, change)
  {
    if t.Node? && t.dir != d { AllHaveSpace(t, d); }
  }

  lemma SelfOnly(sh: Shape)
    requires Distinct(sh)
    ensures sh.cell !in CellsAll(sh.kids) && CellsAll(sh.kids) <= Cells(sh) && sh.cell in Cells(sh)
  {}

  method ResizeAcross(lc: Cell, d: Direction, change: int, ghost sh: Shape, ghost parent: Cell?, ghost t: Tree)
    requires lc == sh.cell && Linked(sh, parent) && Distinct(sh) && lc.kind != Container(d)
    requires Inhabited(t) && change >= -Check(t, d) && t.Leaf? == (lc.kind == WindowPane)
    requires t.Node? ==> TreesOf(sh.kids) == t.kids && t.dir != d
    modifies CellsAll(sh.kids)`sx, CellsAll(sh.kids)`sy
    ensures t.Node? ==> TreesOf(sh.kids) == Adjust(t, d, change).kids
    decreases sh, 1
  {
    hide TreeOf, TreesOf, Check, Adjust, Inhabited, Linked, Distinct, Cells, CellsAll;
    AllAllocated(sh);
    SelfOnly(sh);
    ChildrenLinked(sh, parent);
    AdjustNode(t, d, change);
    ghost var kids := if t.Node? then t.kids else [];
    ghost var after := if t.Node? then Adjust(t, d, change).kids else [];
    for i := 0 to |lc.cells|
      invariant t.Node? ==> |kids| == |after| == |sh.kids| && TreesOf(sh.kids) == kids
      invariant t.Node? ==> forall j :: 0 <= j < |kids| ==> kids[j] == if j < i then after[j] else t.kids[j]
    {
      ResizeAdjustChild(lc, d, change, i, sh, parent, kids);
      kids := kids[i := Adjust(kids[i], d, change)];
    }
    assert t.Node? ==> kids == after;
  }

  method ResizeAdjustChild(
    lc: Cell, d: Direction, change: int, i: nat, ghost sh: Shape, ghost parent: Cell?, ghost kids: seq<Tree>)
    requires lc == sh.cell && Linked(sh, parent) && Distinct(sh) && i < |sh.kids| && TreesOf(sh.kids) == kids
    requires Inhabited(kids[i]) && change >= -Check(kids[i], d)
    modifies Cells(sh.kids[i])`sx, Cells(sh.kids[i])`sy
    ensures TreesOf(sh.kids) == kids[i := Adjust(kids[i], d, change)]
    decreases sh, 0
  {
    hide TreeOf, TreesOf, Check, Adjust, Inhabited, Linked, Distinct, Cells, CellsAll;
    AllAllocated(sh);
    ChildCells(sh, i);
    ChildLinked(sh, parent, i);
    assert forall j :: 0 <= j < |kids| ==> TreeOf(sh.kids[j]) == kids[j];
    ResizeAdjust(lc.cells[i], d, change, sh.kids[i], lc);
    forall j | 0 <= j < |kids| && j != i ensures TreeOf(sh.kids[j]) == kids[j] {
      assert Cells(sh.kids[i]) !! Cells(sh.kids[j]);
    }
  }

  // One child's turn.
  method ResizeTurn(
    lc: Cell, d: Direction, left: int, i: nat, ghost sh: Shape, ghost parent: Cell?, ghost kids: seq<Tree>)
    returns (rest: int, ghost next: seq<Tree>)
    requires lc == sh.cell && Linked(sh, parent) && Distinct(sh) && i < |sh.kids|
    requires TreesOf(sh.kids) == kids && CanShare(kids, d, left) && left != 0
    modifies Cells(sh.kids[i])`sx, Cells(sh.kids[i])`sy
    ensures TreesOf(sh.kids) == next && |next| == |kids| && CanShare(next, d, rest)
    ensures RoundRobin(next, d, rest, i + 1) == RoundRobin(kids, d, left, i)
    ensures left > 0 ==> rest == left - 1
    ensures left < 0 ==> rest == left + 1 || (rest == left && (SpaceFrom(kids, d, i) ==> SpaceFrom(next, d, i + 1)))
    decreases sh, 1
  {
    hide TreeOf, TreesOf, Check, Checks, Sum, Inhabited, Linked, Distinct, Cells, CellsAll, RoundRobin, Adjust,
         AllInhabited, Bump, Trim, SpaceFrom;
    AllAllocated(sh);
    AllAllocated(sh.kids[i]);
    rest, next := left, kids;
    if left > 0 {
      GrowShare(kids, d, left, i);
      ResizeAdjustChild(lc, d, 1, i, sh, parent, kids);
      rest, next := left - 1, kids[i := Bump(kids[i], d)];
    } else {
      var available := ResizeCheckChild(lc, d, i, sh, parent, kids);
      if available > 0 {
        ShrinkShare(kids, d, left, i);
        ResizeAdjustChild(lc, d, -1, i, sh, parent, kids);
        rest, next := left + 1, kids[i := Trim(kids[i], d)];
      } else {
        SkipShare(kids, d, left, i);
      }
    }
  }

  method ResizeAlong(
    lc: Cell, d: Direction, change: int, ghost sh: Shape, ghost parent: Cell?, ghost start: seq<Tree>)
    requires lc == sh.cell && Linked(sh, parent) && Distinct(sh)
    requires TreesOf(sh.kids) == start && CanShare(start, d, change)
    modifies CellsAll(sh.kids)`sx, CellsAll(sh.kids)`sy
    ensures TreesOf(sh.kids) == RoundRobin(start, d, change, 0)
    decreases sh, 2
  {
    hide TreeOf, TreesOf, Check, Checks, Sum, Inhabited, Linked, Distinct, Cells, CellsAll, RoundRobin, Adjust,
         AllInhabited, Bump, Trim, SpaceFrom;
    AllAllocated(sh);
    SelfOnly(sh);
    ChildrenLinked(sh, parent);
    ghost var kids := start;
    ghost var all := RoundRobin(start, d, change, 0);
    var left := change;
    while left != 0
      invariant TreesOf(sh.kids) == kids && CanShare(kids, d, left)
      invariant RoundRobin(kids, d, left, 0) == all
      decreases Common.Abs(left)
    {
      ghost var before := left;
      if left < 0 { SkipShare(kids, d, left, 0); }
      var i := 0;
      while i < |lc.cells| && left != 0
        invariant 0 <= i <= |sh.kids| == |kids|
        invariant TreesOf(sh.kids) == kids && CanShare(kids, d, left)
        invariant RoundRobin(kids, d, left, i) == all
        invariant before > 0 ==> left == before - i >= 0
        invariant before < 0 ==> before <= left <= 0 && (left == before ==> SpaceFrom(kids, d, i))
      {
        ChildCells(sh, i);
        left, kids := ResizeTurn(lc, d, left, i, sh, parent, kids);
        i := i + 1;
      }
      WrapShare(kids, d, left, i);
    }
    WrapShare(kids, d, 0, 0);
  }

  // ----- layout_fix_offsets

  /** After i children the first i are placed, and placing the rest from
      (x, y) gives the rest of the result. */
  ghost predicate PlacedTo(
    kids: seq<Tree>, start: seq<Tree>, placed: seq<Tree>, dir: Direction, x: int, y: int, i: nat) {
    && |kids| == |start| == |placed| && i <= |kids|
    && (forall j :: 0 <= j < i ==> kids[j] == placed[j])
    && (forall j :: i <= j < |kids| ==> kids[j] == start[j])
    && PutAll(start[i..], dir, x, y) == placed[i..]
  }

  lemma PlaceStep(kids: seq<Tree>, start: seq<Tree>, placed: seq<Tree>, dir: Direction, x: int, y: int, i: nat)
    requires PlacedTo(kids, start, placed, dir, x, y, i) && i < |kids|
    ensures PlacedTo(kids[i := Put(kids[i], x, y)], start, placed, dir,
                     NextX(dir, x, Put(kids[i], x, y)), NextY(dir, y, Put(kids[i], x, y)), i + 1)
  {
    assert start[i..][1..] == start[i + 1..];
    var rest := PutAll(start[i + 1..], dir, NextX(dir, x, start[i]), NextY(dir, y, start[i]));
    assert placed[i..] == [Put(start[i], x, y)] + rest;
    assert placed[i + 1..] == placed[i..][1..];
    assert placed[i] == placed[i..][0];
  }

  lemma PlaceEnds(start: seq<Tree>, dir: Direction, x: int, y: int)
    ensures PlacedTo(start, start, PutAll(start, dir, x, y), dir, x, y, 0)
    ensures forall kids: seq<Tree>, placed, x', y' ::
              PlacedTo(kids, start, placed, dir, x', y', |start|) ==> kids == placed
  {
    assert start[0..] == start && PutAll(start, dir, x, y)[0..] == PutAll(start, dir, x, y);
  }

  method FixOffsets(lc: Cell, ghost sh: Shape, ghost parent: Cell?)
    requires lc == sh.cell && Linked(sh, parent) && Distinct(sh)
    modifies CellsAll(sh.kids)`xoff, CellsAll(sh.kids)`yoff
    ensures TreeOf(sh) == LayoutOffsets.FixOffsets(old(TreeOf(sh)))
    decreases sh, 1
  {
    hide TreeOf, TreesOf, Linked, Distinct, Cells, CellsAll, PutAll, Put, PlacedTo;
    AllAllocated(sh);
    SelfOnly(sh);
    ChildrenLinked(sh, parent);
    TreeHere(sh);
    ghost var t := TreeOf(sh);
    ghost var dir := if t.Node? then t.dir else TopBottom;
    ghost var start := TreesOf(sh.kids);
    ghost var placed := PutAll(start, dir, lc.xoff, lc.yoff);
    ghost var kids := start;
    PlaceEnds(start, dir, lc.xoff, lc.yoff);
    if lc.kind == Container(LeftRight) {
      var xoff := lc.xoff;
      for i := 0 to |lc.cells|
        invariant TreesOf(sh.kids) == kids && PlacedTo(kids, start, placed, dir, xoff, lc.yoff, i)
      {
        PlaceStep(kids, start, placed, dir, xoff, lc.yoff, i);
        PlaceChild(lc, i, xoff, lc.yoff, sh, parent, kids);
        kids := kids[i := Put(kids[i], xoff, lc.yoff)];
        ChildLinked(sh, parent, i);
        TreeHere(sh.kids[i]);
        xoff := xoff + lc.cells[i].sx + 1;
      }
    } else {
      var yoff := lc.yoff;
      for i := 0 to |lc.cells|
        invariant TreesOf(sh.kids) == kids && PlacedTo(kids, start, placed, dir, lc.xoff, yoff, i)
      {
        PlaceStep(kids, start, placed, dir, lc.xoff, yoff, i);
        PlaceChild(lc, i, lc.xoff, yoff, sh, parent, kids);
        kids := kids[i := Put(kids[i], lc.xoff, yoff)];
        ChildLinked(sh, parent, i);
        TreeHere(sh.kids[i]);
        yoff := yoff + lc.cells[i].sy + 1;
      }
    }
    TreeHere(sh);
    PutHere(t);
  }

  lemma PutHere(t: Tree)
    ensures LayoutOffsets.FixOffsets(t) ==
            match t
            case Leaf(_, _, _, _, _) => t
            case Node(dir, sx, sy, xoff, yoff, kids) => Node(dir, sx, sy, xoff, yoff, PutAll(kids, dir, xoff, yoff))
  {}

  method PlaceChild(
    lc: Cell, i: nat, x: int, y: int, ghost sh: Shape, ghost parent: Cell?, ghost kids: seq<Tree>)
    requires lc == sh.cell && Linked(sh, parent) && Distinct(sh) && i < |sh.kids| && TreesOf(sh.kids) == kids
    modifies Cells(sh.kids[i])`xoff, Cells(sh.kids[i])`yoff
    ensures TreesOf(sh.kids) == kids[i := Put(kids[i], x, y)]
    decreases sh, 0
  {
    hide TreeOf, TreesOf, Linked, Distinct, Cells, CellsAll, Put;
    AllAllocated(sh);
    ChildCells(sh, i);
    ChildLinked(sh, parent, i);
    SelfOnly(sh.kids[i]);
    TreeHere(sh.kids[i]);
    PutMoved(kids[i], x, y);
    assert forall j :: 0 <= j < |kids| ==> TreeOf(sh.kids[j]) == kids[j];
    var child := lc.cells[i];
    child.xoff := x;
    child.yoff := y;
    TreeHere(sh.kids[i]);
    assert TreesOf(sh.kids[i].kids) == old(TreesOf(sh.kids[i].kids));
    assert TreeOf(sh.kids[i]) == Moved(kids[i], x, y);
    if child.kind != WindowPane {
      FixOffsets(child, sh.kids[i], lc);
    }
    forall j | 0 <= j < |kids| && j != i ensures TreeOf(sh.kids[j]) == kids[j] {
      assert Cells(sh.kids[i]) !! Cells(sh.kids[j]);
    }
  }
}
