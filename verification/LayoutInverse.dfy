// Closing a pane straight after the split that made it.
module LayoutInverse {
  import opened Common
  import opened LayoutTree
  import opened LayoutAdjust
  import opened LayoutOffsets
  import opened LayoutPaths
  import opened LayoutPlaced
  import opened LayoutSplit
  import opened LayoutClose
  import W = LayoutWindow

  // ----- Offsets inside a cell do not matter once it is placed again

  lemma {:induction false} PutAllSwap(kids: seq<Tree>, dir: Direction, x: int, y: int, i: nat, k: Tree)
    requires i < |kids| && k.sx == kids[i].sx && k.sy == kids[i].sy
    requires forall a, b :: Put(k, a, b) == Put(kids[i], a, b)
    ensures PutAll(kids[i := k], dir, x, y) == PutAll(kids, dir, x, y)
  {
    hide Put, PutAll;
    PutAllCons(kids, dir, x, y);
    PutAllCons(kids[i := k], dir, x, y);
    if i == 0 {
      assert kids[0 := k][1..] == kids[1..];
    } else {
      assert kids[i := k][1..] == kids[1..][i - 1 := k];
      PutAllSwap(kids[1..], dir, NextX(dir, x, kids[0]), NextY(dir, y, kids[0]), i - 1, k);
    }
  }

  lemma PutAllCons(kids: seq<Tree>, dir: Direction, x: int, y: int)
    requires kids != []
    ensures PutAll(kids, dir, x, y)
            == [Put(kids[0], x, y)] + PutAll(kids[1..], dir, NextX(dir, x, kids[0]), NextY(dir, y, kids[0]))
  {}

  lemma {:induction false} PutReplace(t: Tree, p: Path, s: Tree, u: Tree)
    requires IsPath(t, p) && s.sx == u.sx == At(t, p).sx && s.sy == u.sy == At(t, p).sy
    requires forall a, b :: Put(s, a, b) == Put(u, a, b)
    ensures var r, v := Replace(t, p, s), Replace(t, p, u);
            && r.sx == v.sx == t.sx && r.sy == v.sy == t.sy
            && forall a, b :: Put(r, a, b) == Put(v, a, b)
  {
    if p != [] {
      var k, m := Replace(t.kids[p[0]], p[1..], s), Replace(t.kids[p[0]], p[1..], u);
      PutReplace(t.kids[p[0]], p[1..], s, u);
      var r, v := Replace(t, p, s), Replace(t, p, u);
      assert v.kids == r.kids[p[0] := m];
      forall a, b ensures Put(r, a, b) == Put(v, a, b) {
        PutAllSwap(r.kids, t.dir, a, b, p[0], m);
      }
    }
  }

  // ----- Split, assign, close

  /** The tree after a split and the path of its new leaf. */
  function SplitCell(t: Tree, p: Path, d: Direction, hint: int, before: bool): (q: Path)
    requires IsPath(t, p) && At(t, p).Leaf? && CanSplit(At(t, p), d)
    ensures |q| == |SplitPoint(t, p, d)| + 1 && q[..|q| - 1] == SplitPoint(t, p, d)
  {
    SplitTree(t, p, d, hint, before).value.1
  }

  /** The container a split leaves, with the new pane assigned to child i. */
  ghost predicate AssignedAt(t: Tree, p: Path, d: Direction, hint: int, before: bool, id: PaneId, s: Tree, i: nat)
    requires IsPath(t, p) && At(t, p).Leaf?
  {
    var s0 := SplitContainer(t, p, d, hint, before);
    && i == (if Joins(t, p, d) then p[|p| - 1] else 0) + (if before then 0 else 1)
    && i < |s0.kids| && s0.kids[i].Leaf? && s == s0.(kids := s0.kids[i := s0.kids[i].(wp := Some(id))])
  }

  lemma AssignedSound(t: Tree, p: Path, d: Direction, hint: int, before: bool, id: PaneId)
    returns (s: Tree, i: nat)
    requires IsPath(t, p) && At(t, p).Leaf? && CanSplit(At(t, p), d) && Sound(t)
    ensures var r, q := SplitAssign(t, p, d, hint, before, id).value, SplitCell(t, p, d, hint, before);
            && r == Replace(t, SplitPoint(t, p, d), s) && CanClose(r, q)
            && q[|q| - 1] == i && IsPath(r, SplitPoint(t, p, d)) && At(r, SplitPoint(t, p, d)) == s
            && Closable(s, i)
    ensures AssignedAt(t, p, d, hint, before, id, s, i)
  {
    s, i := AssignedContainer(t, p, d, hint, before, id);
    SplitKeeps(t, p, d, hint, before);
    NewCellPath(t, p, d, hint, before);
    var (u, q) := SplitTree(t, p, d, hint, before).value;
    var r := SplitAssign(t, p, d, hint, before, id).value;
    var lc := At(u, q).(wp := Some(id));
    AtKeeps(u, q);
    ReplaceTiled(u, q, lc);
    ReplaceBranching(u, q, lc);
    ReplaceAt(u, q, lc);
    ReplaceAt(t, SplitPoint(t, p, d), s);
    AtKeeps(r, SplitPoint(t, p, d));
    AtKeeps(r, q);
    ParentOf(r, q);
    PositiveSize(At(r, q), At(r, SplitPoint(t, p, d)).dir);
  }

  /** The split put the new cell where closing it gives its space back to the
      old one: after it, or before it with no cell to its left. */
  predicate Undoable(t: Tree, p: Path, d: Direction, before: bool)
    requires IsPath(t, p)
  {
    before && Joins(t, p, d) ==> p[|p| - 1] == 0
  }

  lemma ContainerKids(t: Tree, p: Path, d: Direction, hint: int, before: bool)
    requires IsPath(t, p) && At(t, p).Leaf?
    ensures var s0 := SplitContainer(t, p, d, hint, before);
            var n := if Joins(t, p, d) then p[|p| - 1] else 0;
            var (c1, c2) := Halves(At(t, p), d, hint, before);
            && s0.Node? && s0.dir == d && n + 1 < |s0.kids| && s0.kids[n] == c1 && s0.kids[n + 1] == c2
            && (Joins(t, p, d) ==>
                  var parent := At(t, SplitPoint(t, p, d));
                  s0 == parent.(kids := parent.kids[..n] + [c1, c2] + parent.kids[n + 1..]))
            && (!Joins(t, p, d) ==> s0.kids == [c1, c2])
  {
    var point := SplitPoint(t, p, d);
  }

  lemma PairAfterClose(kids: seq<Tree>, n: nat, c1: Tree, c2: Tree, i: nat, j: nat, lc: Tree, u: Tree)
    requires n < |kids| && (i == n || i == n + 1)
    requires j == n + n + 1 - i
    ensures Without((kids[..n] + [c1, c2] + kids[n + 1..])[i := u][j := lc], i) == kids[n := lc]
  {}

  /** The half of the old cell takes the other half's space. */
  lemma HeirIs(t: Tree, p: Path, d: Direction, hint: int, before: bool, s: Tree, i: nat, id: PaneId)
    returns (heir: Tree, lc: Tree)
    requires IsPath(t, p) && At(t, p).Leaf? && Undoable(t, p, d, before)
    requires AssignedAt(t, p, d, hint, before, id, s, i) && Closable(s, i)
    ensures var (c1, c2) := Halves(At(t, p), d, hint, before);
            && heir == (if before then c2 else c1) && s.dir == d && i < |s.kids|
            && Heir(i) < |s.kids| && s.kids[Heir(i)] == heir
            && lc == Adjust(heir, d, Size(s.kids[i], d) + 1)
    ensures KidsAfterClose(s, i) == Without(s.kids[Heir(i) := lc], i)
    ensures lc.Leaf? && lc.sx == At(t, p).sx && lc.sy == At(t, p).sy && lc.wp == At(t, p).wp
  {
    hide IsPath, At, SplitContainer, SecondSize, Sound;
    ContainerKids(t, p, d, hint, before);
    ClosableFacts(s, i);
    heir := s.kids[Heir(i)];
    lc := Adjust(heir, d, Size(s.kids[i], d) + 1);
  }

  /** What the close leaves: the old cell back in its container, moved at most
      in its offset. */
  lemma HeirRestored(t: Tree, p: Path, d: Direction, hint: int, before: bool, s: Tree, i: nat, id: PaneId)
    returns (lc: Tree)
    requires IsPath(t, p) && At(t, p).Leaf? && Sound(t) && Undoable(t, p, d, before)
    requires AssignedAt(t, p, d, hint, before, id, s, i) && Closable(s, i)
    ensures lc.Leaf? && lc.sx == At(t, p).sx && lc.sy == At(t, p).sy && lc.wp == At(t, p).wp
    ensures var point := SplitPoint(t, p, d);
            AfterClose(s, i) == if Joins(t, p, d)
                                then At(t, point).(kids := At(t, point).kids[p[|p| - 1] := lc])
                                else lc
  {
    hide IsPath, At, SplitContainer, Halves, KidsAfterClose, Adjust, Tiled, Positive;
    AtKeeps(t, SplitPoint(t, p, d));
    var heir;
    heir, lc := HeirIs(t, p, d, hint, before, s, i, id);
    var (c1, c2) := Halves(At(t, p), d, hint, before);
    var j := Heir(i);
    var kids := KidsAfterClose(s, i);
    ContainerKids(t, p, d, hint, before);
    if Joins(t, p, d) {
      var parent, n := At(t, SplitPoint(t, p, d)), p[|p| - 1];
      PairAfterClose(parent.kids, n, c1, c2, i, j, lc, s.kids[i]);
      assert s.kids == (parent.kids[..n] + [c1, c2] + parent.kids[n + 1..])[i := s.kids[i]];
      assert kids == parent.kids[n := lc];
    } else {
      assert kids == [lc];
    }
  }

  /** Splitting and then closing the new pane restores the whole tree, sizes
      and offsets included, in exactly the undoable cases. */
  lemma SplitThenClose(t: Tree, p: Path, d: Direction, hint: int, before: bool, id: PaneId)
    requires IsPath(t, p) && At(t, p).Leaf? && CanSplit(At(t, p), d)
    requires Sound(t) && Placed(t) && t.xoff == 0 && t.yoff == 0
    ensures var r, q := SplitAssign(t, p, d, hint, before, id).value, SplitCell(t, p, d, hint, before);
            CanClose(r, q) && (CloseTree(r, q) == t <==> Undoable(t, p, d, before))
  {
    var s, i := AssignedSound(t, p, d, hint, before, id);
    if Undoable(t, p, d, before) {
      Restores(t, p, d, hint, before, id, s, i);
    } else {
      Spoils(t, p, d, hint, id, s, i);
    }
  }

  lemma CloseAtPoint(t: Tree, p: Path, d: Direction, hint: int, before: bool, id: PaneId, s: Tree, i: nat)
    requires IsPath(t, p) && At(t, p).Leaf? && CanSplit(At(t, p), d)
    requires var r, q := SplitAssign(t, p, d, hint, before, id).value, SplitCell(t, p, d, hint, before);
             && r == Replace(t, SplitPoint(t, p, d), s) && CanClose(r, q) && q[|q| - 1] == i
             && IsPath(r, SplitPoint(t, p, d)) && At(r, SplitPoint(t, p, d)) == s && Closable(s, i)
    ensures var r, q := SplitAssign(t, p, d, hint, before, id).value, SplitCell(t, p, d, hint, before);
            var point := SplitPoint(t, p, d);
            var u := Replace(t, point, AfterClose(s, i));
            CloseTree(r, q) == if point == [] && |s.kids| == 2 then Put(u, 0, 0) else FixOffsets(u)
  {
    ReplaceTwice(t, SplitPoint(t, p, d), s, AfterClose(s, i));
    PutMoved(AfterClose(s, i), 0, 0);
  }

  lemma Restores(t: Tree, p: Path, d: Direction, hint: int, before: bool, id: PaneId, s: Tree, i: nat)
    requires IsPath(t, p) && At(t, p).Leaf? && CanSplit(At(t, p), d)
    requires Sound(t) && Placed(t) && t.xoff == 0 && t.yoff == 0 && Undoable(t, p, d, before)
    requires var r, q := SplitAssign(t, p, d, hint, before, id).value, SplitCell(t, p, d, hint, before);
             && r == Replace(t, SplitPoint(t, p, d), s) && CanClose(r, q) && q[|q| - 1] == i
             && IsPath(r, SplitPoint(t, p, d)) && At(r, SplitPoint(t, p, d)) == s && Closable(s, i)
    requires AssignedAt(t, p, d, hint, before, id, s, i)
    ensures CloseTree(SplitAssign(t, p, d, hint, before, id).value, SplitCell(t, p, d, hint, before)) == t
  {
    var point := SplitPoint(t, p, d);
    var lc := HeirRestored(t, p, d, hint, before, s, i, id);
    CloseAtPoint(t, p, d, hint, before, id, s, i);
    var u := Replace(t, point, AfterClose(s, i));
    assert u == Replace(t, p, lc) by {
      if Joins(t, p, d) {
        var n := p[|p| - 1];
        assert p == point + [n] && [n][1..] == [];
        ReplaceConcat(t, point, [n], lc);
      }
    }
    PutReplace(t, p, lc, At(t, p));
    ReplaceSelf(t, p);
    if p != [] {
      assert u.xoff == t.xoff && u.yoff == t.yoff;
    }
  }

  lemma Spoils(t: Tree, p: Path, d: Direction, hint: int, id: PaneId, s: Tree, i: nat)
    requires IsPath(t, p) && At(t, p).Leaf? && CanSplit(At(t, p), d) && Sound(t)
    requires !Undoable(t, p, d, true)
    requires var r, q := SplitAssign(t, p, d, hint, true, id).value, SplitCell(t, p, d, hint, true);
             && r == Replace(t, SplitPoint(t, p, d), s) && CanClose(r, q) && q[|q| - 1] == i
             && IsPath(r, SplitPoint(t, p, d)) && At(r, SplitPoint(t, p, d)) == s && Closable(s, i)
    requires AssignedAt(t, p, d, hint, true, id, s, i)
    ensures CloseTree(SplitAssign(t, p, d, hint, true, id).value, SplitCell(t, p, d, hint, true)) != t
  {
    var point := SplitPoint(t, p, d);
    var parent := At(t, point);
    CloseAtPoint(t, p, d, hint, true, id, s, i);
    var c := AfterClose(s, i);
    HeirAdjusted(s, i);
    assert s.kids[i - 1] == parent.kids[i - 1];
    var kids := KidsAfterClose(s, i);
    assert Size(kids[i - 1], d) > Size(parent.kids[i - 1], d);
    assert |kids| >= 2 && c.kids == kids;
    var u := Replace(t, point, c);
    ReplaceAt(t, point, c);
    var a, b := PutAt(u, point, u.xoff, u.yoff);
    var x, y := PutAllAt(c.kids, c.dir, a, b, i - 1);
    assert At(FixOffsets(u), point) == Put(c, a, b);
  }

  // ----- A pane inserted before one with a neighbour

  const SIDE_BY_SIDE :=
    Node(LeftRight, 11, 5, 0, 0, [Leaf(5, 5, 0, 0, Some(0)), Leaf(5, 5, 6, 0, Some(1))])

  lemma SideBySide()
    ensures W.Invariant(W.Init(11, 5, 0)) && W.Invariant(W.Window(11, 5, SIDE_BY_SIDE))
    ensures W.Enabled(W.Init(11, 5, 0), W.Split([], LeftRight, -1, false, 1))
    ensures W.Step(W.Init(11, 5, 0), W.Split([], LeftRight, -1, false, 1)) == W.Window(11, 5, SIDE_BY_SIDE)
  {
    var w := W.Init(11, 5, 0);
    W.InitInvariant(11, 5, 0);
    assert Panes(w.root) == [Some(0)];
    var s, i := AssignedContainer(w.root, [], LeftRight, -1, false, 1);
    assert s == SIDE_BY_SIDE;
    W.StepKeeps(w, W.Split([], LeftRight, -1, false, 1));
  }

  /** After one split, splitting the second pane with the new one before it and
      closing that does not restore the layout: the first pane gets its space. */
  lemma NotRestored()
    ensures var t, p := SIDE_BY_SIDE, [1];
            && W.Invariant(W.Window(11, 5, t)) && IsPath(t, p) && At(t, p).Leaf? && CanSplit(At(t, p), LeftRight)
            && var r, q := SplitAssign(t, p, LeftRight, -1, true, 2).value, SplitCell(t, p, LeftRight, -1, true);
            CanClose(r, q) && CloseTree(r, q) != t
  {
    hide W.OneLeafPerPane, Put, Check, Fits;
    SideBySide();
    var t, p := SIDE_BY_SIDE, [1];
    assert p[1..] == [] && At(t, p) == t.kids[1];
    assert p[..0] == [] && Joins(t, p, LeftRight);
    SplitThenClose(t, p, LeftRight, -1, true, 2);
  }
}
