// layout_count_cells, layout_find_bottomright, the loop of layout_parse that
// takes cells away, and layout_assign on linked cells.
module LayoutFitCells {
  import opened Common
  import opened LayoutTree
  import opened LayoutPaths
  import opened LayoutCells
  import opened LayoutShapes
  import C = LayoutClose
  import D = LayoutDump
  import F = LayoutFit
  import O = LayoutObject

  // ----- layout_count_cells

  method CountCells(lc: Cell, ghost sh: Shape, ghost parent: Cell?, ghost t: Tree) returns (n: nat)
    requires lc == sh.cell && Linked(sh, parent) && TreeOf(sh) == t
    ensures n == D.CountCells(t)
    decreases sh
  {
    hide TreeOf, TreesOf, Cells, CellsAll, Linked, D.CountCells, D.CountAll;
    AllAllocated(sh);
    ChildrenLinked(sh, parent);
    TreeHere(sh);
    CountHere(t);
    if lc.kind == WindowPane {
      n := 1;
    } else {
      ghost var kids := TreesOf(sh.kids);
      assert kids[..0] == [] && kids[..|kids|] == kids;
      n := 0;
      for i := 0 to |lc.cells|
        invariant n == D.CountAll(kids[..i]) && Linked(sh, parent) && TreesOf(sh.kids) == kids
      {
        ChildLinked(sh, parent, i);
        var m := CountCells(lc.cells[i], sh.kids[i], lc, kids[i]);
        CountLast(kids, i);
        n := n + m;
      }
    }
  }

  lemma CountHere(t: Tree)
    ensures D.CountCells(t) == if t.Leaf? then 1 else D.CountAll(t.kids)
    ensures D.CountAll([]) == 0
  {}

  lemma {:induction false} CountLast(kids: seq<Tree>, i: nat)
    requires i < |kids|
    ensures D.CountAll(kids[..i + 1]) == D.CountAll(kids[..i]) + D.CountCells(kids[i])
    decreases i
  {
    assert kids[..i + 1][1..] == kids[1..][..i];
    if i > 0 {
      assert kids[..i][1..] == kids[1..][..i - 1];
      CountLast(kids[1..], i - 1);
    }
  }

  // ----- layout_find_bottomright

  method FindBottomRight(lc: Cell, ghost sh: Shape, ghost parent: Cell?, ghost t: Tree)
    returns (last: Cell, ghost p: Path)
    requires lc == sh.cell && Linked(sh, parent) && TreeOf(sh) == t && Inhabited(t)
    ensures p == F.BottomRight(t) && IsShapePath(sh, p) && ShapeAt(sh, p) == LeafShape(last)
    decreases sh
  {
    hide TreeOf, TreesOf, Cells, CellsAll, Linked;
    AllAllocated(sh);
    ChildrenLinked(sh, parent);
    TreeHere(sh);
    if lc.kind == WindowPane {
      O.LeafKids(sh, parent);
      last, p := lc, [];
    } else {
      var i := |lc.cells| - 1;
      ChildLinked(sh, parent, i);
      ghost var a;
      last, a := FindBottomRight(lc.cells[i], sh.kids[i], lc, t.kids[i]);
      p := [i] + a;
      assert p[1..] == a;
    }
  }

  // ----- The loop of layout_parse

  // Takes leaves away from the end until there is one for each pane; fails if
  // there are too few to begin with.
  method TrimToFit(w: O.Window, npanes: nat, ghost t: Tree) returns (ok: bool)
    requires w.Structure() && TreeOf(w.shape) == t && C.Sound(t) && npanes >= 1
    modifies w`root, w`shape, Cells(w.shape)`sx, Cells(w.shape)`sy, Cells(w.shape)`xoff, Cells(w.shape)`yoff,
             Cells(w.shape)`parent, Cells(w.shape)`cells
    ensures w.Structure() && Cells(w.shape) <= old(Cells(w.shape))
    ensures ok <==> npanes <= D.CountCells(t)
    ensures TreeOf(w.shape) == if ok then F.TrimTree(t, npanes) else t
  {
    hide TreeOf, TreesOf, Cells, CellsAll, Linked, Distinct, D.CountCells, C.Sound, C.CanClose, C.DestroyTree,
         F.TrimTree, F.BottomRight;
    ghost var u := t;
    ok := true;
    while true
      invariant w.Structure() && TreeOf(w.shape) == u && C.Sound(u) && Cells(w.shape) <= old(Cells(w.shape))
      invariant npanes > D.CountCells(t) ==> u == t
      invariant npanes <= D.CountCells(t) ==> npanes <= D.CountCells(u) && F.TrimTree(u, npanes) == F.TrimTree(t, npanes)
      decreases D.CountCells(u)
    {
      AllAllocated(w.shape);
      var ncells := CountCells(w.root, w.shape, null, u);
      TrimHere(u, npanes);
      if npanes > ncells {
        ok := false;
        break;
      }
      if npanes == ncells {
        break;
      }
      F.SoundNode(u);
      var lcchild;
      ghost var p;
      lcchild, p := FindBottomRight(w.root, w.shape, null, u);
      ghost var gone := w.DestroyCell(lcchild, p, u);
      u := C.DestroyTree(u, p);
    }
  }

  lemma TrimHere(u: Tree, n: nat)
    requires C.Sound(u) && n >= 1
    ensures n == D.CountCells(u) ==> F.TrimTree(u, n) == u
    ensures 1 <= n < D.CountCells(u) ==>
              && Inhabited(u) && C.CanClose(u, F.BottomRight(u))
              && var r := C.DestroyTree(u, F.BottomRight(u));
              && C.Sound(r) && D.CountCells(r) == D.CountCells(u) - 1 && F.TrimTree(u, n) == F.TrimTree(r, n)
  {
    if 1 <= n < D.CountCells(u) {
      F.SoundNode(u);
      F.TrimStep(u);
    }
  }

  // ----- layout_assign

  function Options(panes: seq<Pane>): (r: seq<Option<PaneId>>)
    ensures |r| == |panes| && forall i :: 0 <= i < |r| ==> r[i] == Some(panes[i].id)
  {
    seq(|panes|, i requires 0 <= i < |panes| => Some(panes[i].id))
  }

  // Takes panes from the list as the leaves come; the rest of the list.
  method Assign(panes: seq<Pane>, lc: Cell, ghost sh: Shape, ghost parent: Cell?, ghost t: Tree) returns (rest: seq<Pane>)
    requires lc == sh.cell && Linked(sh, parent) && Distinct(sh) && TreeOf(sh) == t
    requires D.CountCells(t) <= |panes| && NoRepeats(panes)
    modifies Cells(sh)`wp, Owned(panes)`layoutCell
    ensures rest == panes[D.CountCells(t)..]
    ensures TreeOf(sh) == D.Assign(t, Options(panes)).0
    ensures Held(panes[..D.CountCells(t)], Cells(sh))
    ensures forall p :: p in rest ==> p.layoutCell == old(p.layoutCell)
    decreases sh, 2
  {
    hide TreeOf, TreesOf, Cells, CellsAll, Linked, Distinct, D.CountCells, D.CountAll, D.Assign, D.AssignAll, Options;
    AllAllocated(sh);
    SelfOnly(sh);
    ChildrenLinked(sh, parent);
    TreeHere(sh);
    CountHere(t);
    AssignHere(t, Options(panes));
    if lc.kind == WindowPane {
      var wp := panes[0];
      wp.layoutCell := lc;
      lc.wp := wp;
      rest := panes[1..];
      TreeHere(sh);
    } else {
      rest := AssignKids(panes, lc, sh, parent, t.kids);
      TreeHere(sh);
    }
  }

  lemma AssignHere(t: Tree, ps: seq<Option<PaneId>>)
    requires D.CountCells(t) <= |ps|
    ensures t.Leaf? ==> D.CountCells(t) == 1 && D.Assign(t, ps) == (t.(wp := ps[0]), ps[1..])
    ensures t.Node? ==> D.CountCells(t) == D.CountAll(t.kids)
                        && D.Assign(t, ps) == (t.(kids := D.AssignAll(t.kids, ps).0), D.AssignAll(t.kids, ps).1)
  {}

  /** i children have their panes: the ones after them get the rest. */
  ghost predicate AssignedTo(trees: seq<Tree>, start: seq<Tree>, all: seq<Tree>, rest: seq<Option<PaneId>>, i: nat) {
    && |trees| == |start| == |all| && i <= |all|
    && (forall j :: 0 <= j < i ==> trees[j] == all[j])
    && (forall j :: i <= j < |all| ==> trees[j] == start[j])
    && D.CountAll(start[i..]) <= |rest|
    && D.AssignAll(start[i..], rest).0 == all[i..]
  }

  lemma AssignedStart(start: seq<Tree>, ps: seq<Option<PaneId>>)
    requires D.CountAll(start) <= |ps|
    ensures |D.AssignAll(start, ps).0| == |start|
    ensures AssignedTo(start, start, D.AssignAll(start, ps).0, ps, 0)
  {
    AssignLength(start, ps);
    assert start[0..] == start;
  }

  lemma {:induction false} AssignLength(start: seq<Tree>, ps: seq<Option<PaneId>>)
    requires D.CountAll(start) <= |ps|
    ensures |D.AssignAll(start, ps).0| == |start|
    decreases |start|
  {
    if start != [] { AssignLength(start[1..], D.Assign(start[0], ps).1); }
  }

  lemma {:induction false} AssignedStep(trees: seq<Tree>, start: seq<Tree>, all: seq<Tree>, rest: seq<Option<PaneId>>, i: nat)
    requires AssignedTo(trees, start, all, rest, i)
    ensures i == |start| ==> trees == all
    ensures i < |start| ==>
              && trees[i] == start[i] && D.CountCells(start[i]) <= |rest|
              && D.CountAll(start[i..]) == D.CountCells(start[i]) + D.CountAll(start[i + 1..])
              && AssignedTo(trees[i := D.Assign(start[i], rest).0], start, all, rest[D.CountCells(start[i])..], i + 1)
  {
    hide D.Assign, D.CountCells, D.CountAll, D.AssignAll;
    if i < |start| {
      assert start[i..][1..] == start[i + 1..] && start[i..][0] == start[i];
      AssignFirst(start[i..], rest);
      F.AssignKeeps(start[i], rest);
      var (k, left) := D.Assign(start[i], rest);
      assert all[i..] == [k] + D.AssignAll(start[i + 1..], left).0;
      assert all[i] == all[i..][0] && all[i + 1..] == all[i..][1..];
    }
  }

  lemma {:induction false} AssignFirst(kids: seq<Tree>, ps: seq<Option<PaneId>>)
    requires kids != [] && D.CountAll(kids) <= |ps|
    ensures D.CountAll(kids) == D.CountCells(kids[0]) + D.CountAll(kids[1..])
    ensures var (k, left) := D.Assign(kids[0], ps);
            D.AssignAll(kids, ps).0 == [k] + D.AssignAll(kids[1..], left).0
  {}

  method AssignKids(panes: seq<Pane>, lc: Cell, ghost sh: Shape, ghost parent: Cell?, ghost start: seq<Tree>)
    returns (rest: seq<Pane>)
    requires lc == sh.cell && Linked(sh, parent) && Distinct(sh) && TreesOf(sh.kids) == start
    requires D.CountAll(start) <= |panes| && NoRepeats(panes)
    modifies CellsAll(sh.kids)`wp, Owned(panes)`layoutCell
    ensures rest == panes[D.CountAll(start)..]
    ensures TreesOf(sh.kids) == D.AssignAll(start, Options(panes)).0
    ensures Held(panes[..D.CountAll(start)], CellsAll(sh.kids))
    ensures forall p :: p in rest ==> p.layoutCell == old(p.layoutCell)
    decreases sh, 1
  {
    hide TreeOf, TreesOf, Cells, CellsAll, Linked, Distinct, D.CountCells, D.CountAll, D.Assign, D.AssignAll, Options,
         Held, AssignedTo, Owned, NoRepeats;
    AllAllocated(sh);
    SelfOnly(sh);
    ChildrenLinked(sh, parent);
    ghost var all := D.AssignAll(start, Options(panes)).0;
    AssignedStart(start, Options(panes));
    HeldNone(panes, CellsAll(sh.kids[..0]));
    assert panes[0..] == panes;
    ghost var trees: seq<Tree>, n: nat := start, 0;
    rest := panes;
    for i := 0 to |lc.cells|
      invariant TreesOf(sh.kids) == trees && AssignedTo(trees, start, all, Options(rest), i)
      invariant n + D.CountAll(start[i..]) == D.CountAll(start) && n <= |panes| && rest == panes[n..]
      invariant Held(panes[..n], CellsAll(sh.kids[..i]))
      invariant forall p :: p in rest ==> p.layoutCell == old(p.layoutCell)
    {
      ghost var m := D.CountCells(start[i]);
      AssignedStep(trees, start, all, Options(rest), i);
      OptionsRest(rest, m);
      PanesApart(panes, n);
      CellsApart(sh, i);
      rest := AssignChild(rest, lc, i, sh, parent, trees);
      HeldMore(panes, n, m, CellsAll(sh.kids[..i]), Cells(sh.kids[i]));
      trees := trees[i := D.Assign(start[i], Options(panes[n..])).0];
      n := n + m;
    }
    AssignedStep(trees, start, all, Options(rest), |start|);
    CountNone();
    assert start[|start|..] == [] && sh.kids[..|start|] == sh.kids;
  }

  lemma CountNone()
    ensures D.CountAll([]) == 0
  {}

  lemma OptionsRest(panes: seq<Pane>, n: nat)
    requires n <= |panes|
    ensures Options(panes[n..]) == Options(panes)[n..]
  {}

  lemma CellsApart(sh: Shape, i: nat)
    requires Distinct(sh) && i < |sh.kids|
    ensures CellsAll(sh.kids[..i]) !! Cells(sh.kids[i]) && Cells(sh.kids[i]) <= CellsAll(sh.kids)
    ensures CellsAll(sh.kids[..i]) + Cells(sh.kids[i]) == CellsAll(sh.kids[..i + 1])
    ensures CellsAll(sh.kids[..i + 1]) <= CellsAll(sh.kids)
  {
    hide Cells;
    ChildCells(sh, i);
    assert forall j :: 0 <= j < i ==> sh.kids[..i + 1][j] == sh.kids[..i][j] == sh.kids[j];
    assert sh.kids[..i + 1][i] == sh.kids[i];
  }

  method AssignChild(panes: seq<Pane>, lc: Cell, i: nat, ghost sh: Shape, ghost parent: Cell?, ghost trees: seq<Tree>)
    returns (rest: seq<Pane>)
    requires lc == sh.cell && Linked(sh, parent) && Distinct(sh) && TreesOf(sh.kids) == trees && i < |sh.kids|
    requires D.CountCells(trees[i]) <= |panes| && NoRepeats(panes)
    modifies Cells(sh.kids[i])`wp, Owned(panes)`layoutCell
    ensures rest == panes[D.CountCells(trees[i])..]
    ensures TreesOf(sh.kids) == trees[i := D.Assign(trees[i], Options(panes)).0]
    ensures Held(panes[..D.CountCells(trees[i])], Cells(sh.kids[i]))
    ensures forall p :: p in rest ==> p.layoutCell == old(p.layoutCell)
    decreases sh, 0
  {
    hide TreeOf, TreesOf, Cells, CellsAll, Linked, Distinct, D.CountCells, D.Assign, Options, Held, Owned;
    AllAllocated(sh);
    ChildLinked(sh, parent, i);
    ChildCells(sh, i);
    forall j | 0 <= j < |sh.kids| ensures forall c :: c in Cells(sh.kids[j]) ==> allocated(c) {
      AllAllocated(sh.kids[j]);
    }
    rest := Assign(panes, lc.cells[i], sh.kids[i], lc, trees[i]);
    BuildTrees(sh.kids, trees[i := D.Assign(trees[i], Options(panes)).0]);
  }
}
