// What each operation does to a window's layout, said of the tree before and
// the tree after it.
module LayoutSteps {
  import opened Common
  import opened LayoutTree
  import opened LayoutAdjust
  import opened LayoutOffsets
  import opened LayoutPaths
  import opened LayoutPlaced
  import opened LayoutSplit
  import opened LayoutClose
  import opened LayoutResizePane
  import opened LayoutWindow
  import I = LayoutInverse
  import Q = LayoutSqueeze

  // ----- Where a placed layout puts its cells

  ghost predicate InOrder(t: Tree)
    requires t.Node?
  {
    forall i :: 0 <= i < |t.kids| ==>
      && Placed(t.kids[i])
      && Offset(t.kids[i], t.dir) == Offset(t, t.dir) + Sum(Sizes(t.kids[..i], t.dir)) + i
      && Offset(t.kids[i], Other(t.dir)) == Offset(t, Other(t.dir))
  }

  lemma {:induction false} RunInOrder(kids: seq<Tree>, d: Direction, x: int, y: int)
    ensures PlacedRun(kids, d, x, y) <==>
            forall i :: 0 <= i < |kids| ==>
              && Placed(kids[i])
              && Offset(kids[i], d) == (if d == LeftRight then x else y) + Sum(Sizes(kids[..i], d)) + i
              && Offset(kids[i], Other(d)) == if d == LeftRight then y else x
  {
    if kids != [] {
      var rest := kids[1..];
      RunInOrder(rest, d, NextX(d, x, kids[0]), NextY(d, y, kids[0]));
      assert Sizes(kids[..0], d) == [];
      forall i | 0 < i < |kids|
        ensures kids[i] == rest[i - 1] && Sum(Sizes(kids[..i], d)) == Size(kids[0], d) + Sum(Sizes(rest[..i - 1], d))
      {
        assert Sizes(kids[..i], d)[1..] == Sizes(rest[..i - 1], d);
      }
      assert forall i :: 0 <= i < |rest| ==> rest[i] == kids[i + 1];
    }
  }

  /** A layout is placed if and only if the children of each container lie side
      by side from its corner on, in order, with one separator between them. */
  lemma PlacedInOrder(t: Tree)
    requires t.Node?
    ensures Placed(t) <==> InOrder(t)
  {
    PlacedIff(t);
    RunInOrder(t.kids, t.dir, t.xoff, t.yoff);
  }

  // ----- Splits

  /** The leaf at p is in a container that runs along d. */
  predicate InRow(t: Tree, p: Path, d: Direction)
    requires IsPath(t, p)
  {
    p != [] && Along(t, p, d, |p| - 1)
  }

  /** Children n and n + 1 of the container at q are the two halves; the new
      pane is in the first if it was to go before the old one. */
  ghost predicate SplitDone(t: Tree, r: Tree, p: Path, d: Direction, hint: int, before: bool, id: PaneId, q: Path, n: nat)
    requires IsPath(t, p)
  {
    && At(t, p).Leaf? && IsPath(r, q) && At(r, q).Node? && At(r, q).dir == d && n + 1 < |At(r, q).kids|
    && var lc, c1, c2 := At(t, p), At(r, q).kids[n], At(r, q).kids[n + 1];
    && c1.Leaf? && c2.Leaf?
    && HalfSizes(Size(lc, d), Size(c1, d), Size(c2, d), hint)
    && Size(c1, Other(d)) == Size(c2, Other(d)) == Size(lc, Other(d))
    && c1.wp == (if before then Some(id) else lc.wp) && c2.wp == (if before then lc.wp else Some(id))
  }

  /** In a row along d the halves take the place of the leaf, elsewhere they
      make a container of their own. */
  ghost predicate SplitLaw(t: Tree, r: Tree, p: Path, d: Direction, hint: int, before: bool, id: PaneId)
    requires IsPath(t, p)
  {
    if InRow(t, p, d) then
      var q, n := p[..|p| - 1], p[|p| - 1];
      PathPrefix(t, p, |p| - 1);
      && SplitDone(t, r, p, d, hint, before, id, q, n) && OnlyInside(t, r, q)
      && n < |At(t, q).kids|
      && At(r, q).kids[..n] == At(t, q).kids[..n] && At(r, q).kids[n + 2..] == At(t, q).kids[n + 1..]
    else
      SplitDone(t, r, p, d, hint, before, id, p, 0) && OnlyInside(t, r, p) && |At(r, p).kids| == 2
  }

  lemma Replaced(t: Tree, q: Path, s: Tree)
    requires IsPath(t, q) && s.sx == At(t, q).sx && s.sy == At(t, q).sy
    ensures var r := Replace(t, q, s); IsPath(r, q) && At(r, q) == s && OnlyInside(t, r, q)
  {
    ReplaceAt(t, q, s);
    forall m | IsPath(t, m) && !(q < m)
      ensures var r := Replace(t, q, s); IsPath(r, m) && At(r, m).sx == At(t, m).sx && At(r, m).sy == At(t, m).sy
    {
      ReplaceElsewhere(t, q, s, m);
    }
  }

  // Two children in the place of one, one of them changed.
  lemma HalvesInRow(kids: seq<Tree>, n: nat, c1: Tree, c2: Tree, i: nat, c: Tree)
    requires n < |kids| && (i == n || i == n + 1)
    ensures var r := (kids[..n] + [c1, c2] + kids[n + 1..])[i := c];
            && r[..n] == kids[..n] && r[n + 2..] == kids[n + 1..] && n + 1 < |r|
            && r[n] == (if i == n then c else c1) && r[n + 1] == (if i == n then c2 else c)
  {}

  lemma SplitObeys(t: Tree, p: Path, d: Direction, hint: int, before: bool, id: PaneId)
    requires IsPath(t, p) && At(t, p).Leaf? && Size(At(t, p), d) >= 5
    ensures SplitAssign(t, p, d, hint, before, id).Some?
    ensures SplitLaw(t, SplitAssign(t, p, d, hint, before, id).value, p, d, hint, before, id)
  {
    hide IsPath, At, Halves, SecondSize, Replace, OnlyInside, SplitContainer, SplitAssign, SplitPoint, Joins, InRow;
    var s, i := AssignedContainer(t, p, d, hint, before, id);
    I.ContainerKids(t, p, d, hint, before);
    SplitSizes(At(t, p), d, hint, before);
    SplitSame(t, p, d, hint, before);
    var (c1, c2) := Halves(At(t, p), d, hint, before);
    var q := SplitPoint(t, p, d);
    Replaced(t, q, s);
    if InRow(t, p, d) {
      HalvesInRow(At(t, q).kids, p[|p| - 1], c1, c2, i, s.kids[i]);
    }
  }

  lemma SplitSame(t: Tree, p: Path, d: Direction, hint: int, before: bool)
    requires IsPath(t, p) && At(t, p).Leaf?
    ensures var q, s := SplitPoint(t, p, d), SplitContainer(t, p, d, hint, before);
            s.sx == At(t, q).sx && s.sy == At(t, q).sy && q == if InRow(t, p, d) then p[..|p| - 1] else p
    ensures (InRow(t, p, d) <==> Joins(t, p, d)) && (InRow(t, p, d) ==> p != [])
    ensures var (c1, c2) := Halves(At(t, p), d, hint, before); c1.Leaf? && c2.Leaf?
  {}

  // ----- Closes

  /** Child j of a container after its child i was closed. */
  function NewPlace(i: nat, j: nat): int {
    if j < i then j else j - 1
  }

  /** c is k somewhere in the window. */
  ghost predicate Stands(c: Tree, k: Tree) {
    exists x, y :: c == Put(k, x, y)
  }

  /** The other children of the container keep their panes and sizes, but the
      one before the closed cell, or the one after it if it was the first, has
      its size and the separator added. The last child left takes the place of
      the container. */
  ghost predicate CloseLaw(t: Tree, r: Tree, p: Path)
    requires IsPath(t, p) && p != []
  {
    var n := |p| - 1;
    PathPrefix(t, p, n);
    var q, i := p[..n], p[n];
    var parent := At(t, q);
    var d, h, gain := parent.dir, if i == 0 then 1 else i - 1, Size(At(t, p), parent.dir) + 1;
    && OnlyInside(t, r, q) && IsPath(r, q) && i < |parent.kids| && h < |parent.kids|
    && var c := At(r, q);
    if |parent.kids| == 2 then
      && Panes(c) == Panes(parent.kids[h])
      && Inhabited(parent.kids[h]) && gain >= -Check(parent.kids[h], d)
      && Stands(c, Adjust(parent.kids[h], d, gain))
    else
      && c.Node? && c.dir == d && |c.kids| == |parent.kids| - 1
      && forall j :: 0 <= j < |parent.kids| && j != i ==>
           && Panes(c.kids[NewPlace(i, j)]) == Panes(parent.kids[j])
           && Size(c.kids[NewPlace(i, j)], Other(d)) == Size(parent.kids[j], Other(d))
           && Size(c.kids[NewPlace(i, j)], d) == Size(parent.kids[j], d) + if j == h then gain else 0
  }

  lemma PlacedInside(t: Tree, u: Tree, q: Path)
    requires OnlyInside(t, u, q)
    ensures OnlyInside(t, FixOffsets(u), q)
  {
    var r := FixOffsets(u);
    forall m | IsPath(t, m) && !(q < m)
      ensures IsPath(r, m) && At(r, m).sx == At(t, m).sx && At(r, m).sy == At(t, m).sy
    {
      var x, y := PutAt(u, m, u.xoff, u.yoff);
    }
  }

  lemma PlacedPanes(u: Tree, q: Path)
    requires IsPath(u, q) && At(u, q).Node?
    ensures var s, r := At(u, q), FixOffsets(u);
            && IsPath(r, q) && At(r, q).Node? && |At(r, q).kids| == |s.kids|
            && forall i :: 0 <= i < |s.kids| ==> Panes(At(r, q).kids[i]) == Panes(s.kids[i])
  {
    hide Panes;
    var s := At(u, q);
    var a, b := PutAt(u, q, u.xoff, u.yoff);
    forall i | 0 <= i < |s.kids| ensures Panes(At(FixOffsets(u), q).kids[i]) == Panes(s.kids[i]) {
      var x, y := PutAllAt(s.kids, s.dir, a, b, i);
      PutPanes(s.kids[i], x, y);
    }
  }

  /** What the close leaves before it is placed. */
  lemma DestroyedAt(t: Tree, p: Path) returns (s: Tree)
    requires CanClose(t, p)
    ensures var q, i := p[..|p| - 1], p[|p| - 1];
            && IsPath(t, q) && Closable(At(t, q), i) && At(t, q).kids[i] == At(t, p)
            && OnlyInside(t, DestroyTree(t, p), q) && IsPath(DestroyTree(t, p), q)
            && s == At(DestroyTree(t, p), q)
            && (s == AfterClose(At(t, q), i) || s == Moved(AfterClose(At(t, q), i), 0, 0))
  {
    hide AfterClose, Panes, Sound;
    var q, i := p[..|p| - 1], p[|p| - 1];
    DestroyTreePanes(t, p);
    var a := AfterClose(At(t, q), i);
    AfterCloseTiled(At(t, q), i);
    Replaced(t, q, a);
    s := if q == [] && |At(t, q).kids| == 2 then Moved(a, 0, 0) else a;
  }

  /** The container of the closed leaf, and its heir with the space added. */
  lemma HeirGains(parent: Tree, i: nat) returns (k: Tree)
    requires Closable(parent, i)
    ensures var d, h := parent.dir, Heir(i);
            && h < |parent.kids| && Inhabited(parent.kids[h])
            && Size(parent.kids[i], d) + 1 >= -Check(parent.kids[h], d)
            && k == Adjust(parent.kids[h], d, Size(parent.kids[i], d) + 1)
            && Panes(k) == Panes(parent.kids[h])
            && Size(k, d) == Size(parent.kids[h], d) + Size(parent.kids[i], d) + 1
            && Size(k, Other(d)) == Size(parent.kids[h], Other(d))
            && |KidsAfterClose(parent, i)| == |parent.kids| - 1 >= 1
            && (forall j :: 0 <= j < |parent.kids| && j != i ==>
                  KidsAfterClose(parent, i)[if j < i then j else j - 1] == if j == h then k else parent.kids[j])
            && AfterClose(parent, i)
               == if |parent.kids| == 2 then k else parent.(kids := KidsAfterClose(parent, i))
  {
    hide Panes, Adjust, Check, Tiled, Branching, Positive, AfterClose, KidsAfterClose;
    ClosableFacts(parent, i);
    HeirAdjusted(parent, i);
    KidSound(parent, parent.kids[Heir(i)]);
    k := Adjust(parent.kids[Heir(i)], parent.dir, Size(parent.kids[i], parent.dir) + 1);
    Q.KidsLeft(parent, i, k);
  }

  lemma CloseObeys(t: Tree, p: Path)
    requires CanClose(t, p)
    ensures CloseLaw(t, CloseTree(t, p), p)
  {
    hide Panes, Sound, DestroyTree, Adjust, Put, OnlyInside, Check, Inhabited, AfterClose, KidsAfterClose, Stands;
    var s := DestroyedAt(t, p);
    var q, i := p[..|p| - 1], p[|p| - 1];
    var u, parent := DestroyTree(t, p), At(t, q);
    PlacedInside(t, u, q);
    var k := HeirGains(parent, i);
    var x, y := PutAt(u, q, u.xoff, u.yoff);
    var c := At(CloseTree(t, p), q);
    assert c == Put(s, x, y);
    if |parent.kids| == 2 {
      CloseAlone(s, k, x, y);
    } else {
      PlacedPanes(u, q);
      PlacedKids(u, q);
      CloseOthers(parent, i, k, s, c);
    }
  }

  lemma CloseAlone(s: Tree, k: Tree, x: int, y: int)
    requires s == k || s == Moved(k, 0, 0)
    ensures Stands(Put(s, x, y), k) && Panes(Put(s, x, y)) == Panes(k)
  {
    assert Put(s, x, y) == Put(k, x, y);
    PutPanes(k, x, y);
  }

  lemma CloseOthers(parent: Tree, i: nat, k: Tree, s: Tree, c: Tree)
    requires parent.Node? && i < |parent.kids| && Heir(i) < |parent.kids| && |parent.kids| > 2
    requires s.Node? && c.Node? && |c.kids| == |s.kids| == |parent.kids| - 1
    requires forall j :: 0 <= j < |parent.kids| && j != i ==>
               s.kids[if j < i then j else j - 1] == if j == Heir(i) then k else parent.kids[j]
    requires forall j :: 0 <= j < |s.kids| ==> Panes(c.kids[j]) == Panes(s.kids[j])
    requires forall j, e :: 0 <= j < |s.kids| ==> Size(c.kids[j], e) == Size(s.kids[j], e)
    requires var d, h := parent.dir, parent.kids[Heir(i)];
             Panes(k) == Panes(h) && Size(k, d) == Size(h, d) + Size(parent.kids[i], d) + 1 && Size(k, Other(d)) == Size(h, Other(d))
    ensures forall j :: 0 <= j < |parent.kids| && j != i ==>
              var d := parent.dir;
              && Panes(c.kids[NewPlace(i, j)]) == Panes(parent.kids[j])
              && Size(c.kids[NewPlace(i, j)], Other(d)) == Size(parent.kids[j], Other(d))
              && Size(c.kids[NewPlace(i, j)], d)
                 == Size(parent.kids[j], d) + if j == Heir(i) then Size(parent.kids[i], d) + 1 else 0
  {
    hide Panes;
  }

  // ----- Resizes

  /** The length of the root after a resize from `was` to `now` with `limit`
      space left: it follows the window down as far as there is space, and from
      the smallest length up only where the window is larger. */
  function ResizedLength(length: int, limit: int, was: int, now: int): int {
    if limit == 0 then Max(length, now) else length + Max(now - was, -limit)
  }

  /** The root is adjusted to its new length first across, then down, and
      everything is placed again. */
  ghost predicate ResizeLaw(w: Window, v: Window) {
    var a, b := v.root.sx - w.root.sx, v.root.sy - w.root.sy;
    && v.root.sx == ResizedLength(w.root.sx, Check(w.root, LeftRight), w.sx, v.sx)
    && v.root.sy == ResizedLength(w.root.sy, Check(w.root, TopBottom), w.sy, v.sy)
    && Inhabited(w.root) && a >= -Check(w.root, LeftRight)
    && var t := Adjust(w.root, LeftRight, a);
    Inhabited(t) && b >= -Check(t, TopBottom) && v.root == FixOffsets(Adjust(t, TopBottom, b))
  }

  lemma ResizeObeys(w: Window, sx: int, sy: int)
    requires Sound(w.root)
    ensures ResizeLaw(w, Window(sx, sy, ResizeTree(w, sx, sy)))
  {
    hide Adjust, Put, Check, Tiled, Branching, Positive, Panes;
    ResizeTreeIs(w, sx, sy);
    SoundInhabited(w.root);
    var a := Change(w.root, LeftRight, w.sx, sx);
    AdjustFacts(w.root, LeftRight, a);
    var t := Adjust(w.root, LeftRight, a);
    SoundInhabited(t);
    AdjustFacts(t, TopBottom, Change(t, TopBottom, w.sy, sy));
  }

  // ----- Steps

  ghost predicate StepLaw(w: Window, op: Op, v: Window)
    requires Enabled(w, op)
  {
    match op
    case Split(p, d, hint, before, id) =>
      if Size(At(w.root, p), d) < 5 then v == w
      else v.sx == w.sx && v.sy == w.sy && SplitLaw(w.root, v.root, p, d, hint, before, id)
    case Close(p) => v.sx == w.sx && v.sy == w.sy && CloseLaw(w.root, v.root, p)
    case ResizePane(p, d, change) =>
      && v.sx == w.sx && v.sy == w.sy
      && (forall k: nat :: Innermost(w.root, p, d, k) ==>
            RowResized(w.root, v.root, p, d, change, k) && OnlyInside(w.root, v.root, p[..k]))
      && ((forall k :: 0 <= k < |p| ==> !Along(w.root, p, d, k)) ==> v == w)
    case Resize(sx, sy) => v.sx == sx && v.sy == sy && ResizeLaw(w, v)
  }

  /** Every operation, in every window a run can reach, has the sizes it asks
      for: the halves of a split, the heir of a closed cell, the donors of a
      pane resize, the root of a window resize. */
  lemma StepObeys(w: Window, op: Op)
    requires Invariant(w) && Enabled(w, op)
    ensures StepLaw(w, op, Step(w, op))
  {
    hide Sound, SplitLaw, CloseLaw, RowResized, OnlyInside, ResizeLaw, Innermost, Placed, OneLeafPerPane, CloseTree,
         LayoutResizePane.ResizePane, ResizeTree, SplitAssign;
    match op
    case Split(p, d, hint, before, id) => SplitStep(w, op);
    case Close(p) => CloseObeys(w.root, p);
    case ResizePane(p, d, change) => PaneStep(w, op);
    case Resize(sx, sy) => ResizeObeys(w, sx, sy);
  }

  lemma PaneStep(w: Window, op: Op)
    requires Sound(w.root) && op.ResizePane? && Enabled(w, op)
    ensures StepLaw(w, op, Step(w, op))
  {
    hide Sound, RowResized, OnlyInside, Along, LayoutResizePane.ResizePane;
    forall k: nat | Innermost(w.root, op.p, op.d, k)
      ensures var r := LayoutResizePane.ResizePane(w.root, op.p, op.d, op.change);
              RowResized(w.root, r, op.p, op.d, op.change, k) && OnlyInside(w.root, r, op.p[..k])
    {
      ResizePaneExactly(w.root, op.p, op.d, op.change, k);
    }
    if forall k :: 0 <= k < |op.p| ==> !Along(w.root, op.p, op.d, k) {
      ResizePaneNone(w.root, op.p, op.d, op.change);
    }
  }

  lemma SplitStep(w: Window, op: Op)
    requires Sound(w.root) && op.Split? && Enabled(w, op)
    ensures StepLaw(w, op, Step(w, op))
  {
    hide Sound, SplitLaw;
    if Size(At(w.root, op.p), op.d) >= 5 { SplitObeys(w.root, op.p, op.d, op.hint, op.before, op.id); }
  }
}
