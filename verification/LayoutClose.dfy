// layout_destroy_cell and layout_close_pane on layout trees.
module LayoutClose {
  import opened Common
  import opened LayoutTree
  import opened LayoutAdjust
  import opened LayoutOffsets
  import opened LayoutPaths
  import opened LayoutPlaced

  /** The neighbour that takes over the space of child i: the previous one, or
      the next for the first child. */
  function Heir(i: nat): nat {
    if i == 0 then 1 else i - 1
  }

  function Without(kids: seq<Tree>, i: nat): (r: seq<Tree>)
    requires i < |kids|
    ensures |r| == |kids| - 1
  {
    kids[..i] + kids[i + 1..]
  }

  ghost predicate Closable(parent: Tree, i: nat) {
    parent.Node? && Sound(parent) && i < |parent.kids| && Size(parent.kids[i], parent.dir) >= 1
  }

  /** The children left after child i goes and its heir takes the space. */
  ghost function KidsAfterClose(parent: Tree, i: nat): (r: seq<Tree>)
    requires Closable(parent, i)
    ensures |r| == |parent.kids| - 1
  {
    var kids := parent.kids;
    var j := Heir(i);
    Without(kids[j := Adjust(kids[j], parent.dir, Size(kids[i], parent.dir) + 1)], i)
  }

  /** What stands in the container's place: itself with one child less, or its
      only remaining child. */
  ghost function AfterClose(parent: Tree, i: nat): Tree
    requires Closable(parent, i)
  {
    var kids := KidsAfterClose(parent, i);
    if |kids| == 1 then kids[0] else parent.(kids := kids)
  }

  /** What every run keeps, apart from offsets and panes. */
  ghost predicate Sound(t: Tree) {
    Tiled(t) && Branching(t) && Positive(t)
  }

  lemma SoundInhabited(t: Tree)
    requires Sound(t)
    ensures Tiled(t) && Inhabited(t)
  {}

  ghost predicate CanClose(t: Tree, p: Path) {
    && IsPath(t, p) && p != [] && At(t, p).Leaf?
    && Sound(t)
  }

  lemma ParentOf(t: Tree, p: Path)
    requires IsPath(t, p) && p != []
    ensures var q, i := p[..|p| - 1], p[|p| - 1];
            IsPath(t, q) && At(t, q).Node? && i < |At(t, q).kids| && At(t, q).kids[i] == At(t, p)
  {
    PathPrefix(t, p, |p| - 1);
    assert p[|p| - 1..] == [p[|p| - 1]] && [p[|p| - 1]][1..] == [];
  }

  /** layout_destroy_cell on the leaf at p: the root that is left when a
      container gives way goes to the corner, nothing else is placed. */
  ghost function DestroyTree(t: Tree, p: Path): Tree
    requires CanClose(t, p)
  {
    var q, i := p[..|p| - 1], p[|p| - 1];
    ParentOf(t, p);
    AtKeeps(t, q);
    AtKeeps(t, p);
    var s := AfterClose(At(t, q), i);
    if q == [] && |At(t, q).kids| == 2 then Moved(s, 0, 0) else Replace(t, q, s)
  }

  /** layout_close_pane on the leaf at p, offsets included. */
  ghost function CloseTree(t: Tree, p: Path): Tree
    requires CanClose(t, p)
  {
    FixOffsets(DestroyTree(t, p))
  }

  // ----- What closing keeps

  lemma WithoutSizes(kids: seq<Tree>, i: nat, d: Direction)
    requires i < |kids|
    ensures Sum(Sizes(Without(kids, i), d)) + Size(kids[i], d) == Sum(Sizes(kids, d))
  {
    var a := Sizes(kids, d);
    assert Sizes(Without(kids, i), d) == a[..i] + a[i + 1..];
    SumConcat(a[..i], a[i + 1..]);
    SumAt(a, i);
  }

  lemma AdjustBranching(t: Tree, d: Direction, change: int)
    requires Inhabited(t) && change >= -Check(t, d)
    ensures Branching(t) ==> Branching(Adjust(t, d, change))
    ensures Positive(t) ==> Positive(Adjust(t, d, change))
    ensures Panes(Adjust(t, d, change)) == Panes(t)
  {
    AdjustAdjusts(t, d, change);
    KeptBranching(t, Adjust(t, d, change), d);
    ErasePanes(t, d);
    ErasePanes(Adjust(t, d, change), d);
  }

  lemma {:induction false} KeptBranching(t: Tree, r: Tree, d: Direction)
    requires Erase(r, d) == Erase(t, d) && Spared(t, r, d)
    ensures Branching(t) ==> Branching(r)
    ensures Positive(t) ==> Positive(r)
  {
    if t.Node? {
      assert |EraseAll(t.kids, d)| == |EraseAll(r.kids, d)|;
      forall i | 0 <= i < |t.kids|
        ensures (Branching(t.kids[i]) ==> Branching(r.kids[i])) && (Positive(t.kids[i]) ==> Positive(r.kids[i]))
      {
        EraseKids(t, r, d, i);
        KeptBranching(t.kids[i], r.kids[i], d);
      }
    }
  }

  lemma {:induction false} ErasePanes(t: Tree, d: Direction)
    ensures Panes(Erase(t, d)) == Panes(t)
    decreases t, 1
  {
    if t.Node? { EraseAllPanes(t.kids, d); }
  }

  lemma {:induction false} EraseAllPanes(kids: seq<Tree>, d: Direction)
    ensures PanesAll(EraseAll(kids, d)) == PanesAll(kids)
    decreases kids, 0
  {
    if kids != [] {
      ErasePanes(kids[0], d);
      EraseAllPanes(kids[1..], d);
      assert EraseAll(kids, d)[1..] == EraseAll(kids[1..], d);
    }
  }

  /** Everything later files need to know about one adjustment. */
  lemma AdjustFacts(t: Tree, d: Direction, change: int)
    requires Tiled(t) && change >= -Check(t, d)
    ensures var r := Adjust(t, d, change);
            && Tiled(r) && (Branching(t) ==> Branching(r)) && (Positive(t) ==> Positive(r))
            && Panes(r) == Panes(t)
            && Size(r, d) == Size(t, d) + change && Size(r, Other(d)) == Size(t, Other(d))
            && Check(r, Other(d)) == Check(t, Other(d))
            && (change <= 0 ==> Check(r, d) == Check(t, d) + change)
            && (change >= 0 ==> Check(t, d) <= Check(r, d) <= Check(t, d) + change)
  {
    AdjustAdjusts(t, d, change);
    AdjustKeepsTiled(t, d, change);
    AdjustBranching(t, d, change);
  }

  lemma ClosableFacts(parent: Tree, i: nat)
    requires Closable(parent, i)
    ensures var d, kids, j := parent.dir, parent.kids, Heir(i);
            && j < |kids| && i < |kids| && Inhabited(kids[j]) && Size(kids[i], d) + 1 >= -Check(kids[j], d)
            && KidsAfterClose(parent, i) == Without(kids[j := Adjust(kids[j], d, Size(kids[i], d) + 1)], i)
  {}

  lemma HeirAdjusted(parent: Tree, i: nat)
    requires Closable(parent, i)
    ensures var d, kids, j := parent.dir, parent.kids, Heir(i);
            && var k := Adjust(kids[j], d, Size(kids[i], d) + 1);
            && Sound(k) && Panes(k) == Panes(kids[j])
            && Size(k, d) == Size(kids[j], d) + Size(kids[i], d) + 1
            && Size(k, Other(d)) == Size(parent, Other(d))
  {
    var d, kids, j := parent.dir, parent.kids, Heir(i);
    assert kids[i] in kids && kids[j] in kids;
    assert Fits(parent, Other(d));
    PositiveSize(kids[i], d);
    AdjustFacts(kids[j], d, Size(kids[i], d) + 1);
  }

  lemma KidsAfterCloseSizes(kids: seq<Tree>, i: nat, j: nat, k: Tree, d: Direction)
    requires i < |kids| && j < |kids| && i != j
    requires Size(k, d) == Size(kids[j], d) + Size(kids[i], d) + 1
    ensures Sum(Sizes(Without(kids[j := k], i), d)) == Sum(Sizes(kids, d)) + 1
  {
    assert Sizes(kids[j := k], d) == Sizes(kids, d)[j := Size(k, d)];
    SumUpdate(Sizes(kids, d), j, Size(k, d));
    WithoutSizes(kids[j := k], i, d);
  }

  lemma KidSound(parent: Tree, k: Tree)
    requires parent.Node? && Sound(parent) && k in parent.kids
    ensures Sound(k) && Size(k, Other(parent.dir)) == Size(parent, Other(parent.dir))
  {
    assert Fits(parent, Other(parent.dir));
  }

  lemma KidsAfterCloseTiled(parent: Tree, i: nat)
    requires Closable(parent, i)
    ensures var r := KidsAfterClose(parent, i);
            && (forall k | k in r :: Sound(k)
                                     && Size(k, Other(parent.dir)) == Size(parent, Other(parent.dir)))
            && Sum(Sizes(r, parent.dir)) + |r| - 1 == Size(parent, parent.dir)
  {
    var d, kids, j := parent.dir, parent.kids, Heir(i);
    HeirAdjusted(parent, i);
    var h := Adjust(kids[j], d, Size(kids[i], d) + 1);
    KidsAfterCloseSizes(kids, i, j, h, d);
    forall k | k in KidsAfterClose(parent, i)
      ensures Sound(k) && Size(k, Other(d)) == Size(parent, Other(d))
    {
      assert k == h || k in kids;
      if k in kids { KidSound(parent, k); }
    }
  }

  /** Closing leaves a tiled tree of the container's size in its place. */
  lemma AfterCloseTiled(parent: Tree, i: nat)
    requires Closable(parent, i)
    ensures var s := AfterClose(parent, i);
            Sound(s) && s.sx == parent.sx && s.sy == parent.sy
  {
    var kids := KidsAfterClose(parent, i);
    KidsAfterCloseTiled(parent, i);
    if |kids| == 1 {
      assert kids[0] in kids;
      assert Sizes(kids, parent.dir) == [Size(kids[0], parent.dir)];
      assert Sum([Size(kids[0], parent.dir)]) == Size(kids[0], parent.dir);
    } else {
      CloseFits(parent, kids);
    }
  }

  lemma CloseFits(parent: Tree, kids: seq<Tree>)
    requires parent.Node? && kids != []
    requires forall k | k in kids :: Tiled(k) && Size(k, Other(parent.dir)) == Size(parent, Other(parent.dir))
    requires Sum(Sizes(kids, parent.dir)) + |kids| - 1 == Size(parent, parent.dir)
    ensures Tiled(parent.(kids := kids))
  {}

  lemma DestroyKeeps(t: Tree, p: Path)
    requires CanClose(t, p)
    ensures var r := DestroyTree(t, p);
            && Sound(r) && r.sx == t.sx && r.sy == t.sy
            && (t.xoff == 0 && t.yoff == 0 ==> r.xoff == 0 && r.yoff == 0)
  {
    var q, i := p[..|p| - 1], p[|p| - 1];
    ParentOf(t, p);
    AtKeeps(t, q);
    AtKeeps(t, p);
    var s := AfterClose(At(t, q), i);
    PositiveSize(At(t, p), At(t, q).dir);
    AfterCloseTiled(At(t, q), i);
    ReplaceTiled(t, q, s);
    ReplaceBranching(t, q, s);
    MovedKeeps(s, 0, 0);
  }

  lemma MovedKeeps(t: Tree, x: int, y: int)
    requires Sound(t)
    ensures Sound(Moved(t, x, y)) && Panes(Moved(t, x, y)) == Panes(t)
  {}

  /** A close keeps the tree tiled at its old size, every container at two
      children or more and every leaf at one cell or more, and leaves the
      offsets layout_fix_offsets computes. */
  lemma CloseKeeps(t: Tree, p: Path)
    requires CanClose(t, p)
    ensures var r := CloseTree(t, p);
            && Sound(r) && Placed(r)
            && r.sx == t.sx && r.sy == t.sy
            && (t.xoff == 0 && t.yoff == 0 ==> r.xoff == 0 && r.yoff == 0)
  {
    hide DestroyTree;
    DestroyKeeps(t, p);
    var u := DestroyTree(t, p);
    PutKeepsAll(u, u.xoff, u.yoff);
  }

  lemma PutKeepsAll(t: Tree, x: int, y: int)
    requires Sound(t)
    ensures var r := Put(t, x, y);
            Sound(r) && Placed(r)
  {
    PutKeeps(t, x, y);
    PutFits(t, x, y, LeftRight);
    PutFits(t, x, y, TopBottom);
    PutTwice(t, x, y, x, y);
  }

  // ----- Panes after a close

  lemma PanesWithout(kids: seq<Tree>, j: nat, k: Tree, i: nat)
    requires i < |kids| && j < |kids| && i != j && Panes(k) == Panes(kids[j])
    ensures PanesAll(Without(kids[j := k], i)) == PanesAll(kids[..i]) + PanesAll(kids[i + 1..])
  {
    var u := kids[j := k];
    PanesAllConcat(u[..i], u[i + 1..]);
    if j < i {
      PanesAllUpdate(kids[..i], j, k);
      assert u[..i] == kids[..i][j := k] && u[i + 1..] == kids[i + 1..];
    } else {
      PanesAllUpdate(kids[i + 1..], j - i - 1, k);
      assert u[..i] == kids[..i] && u[i + 1..] == kids[i + 1..][j - i - 1 := k];
    }
  }

  lemma AfterClosePanes(parent: Tree, i: nat)
    requires Closable(parent, i)
    ensures Panes(parent) == PanesAll(parent.kids[..i]) + Panes(parent.kids[i]) + PanesAll(parent.kids[i + 1..])
    ensures parent.kids[i].Leaf? ==> Panes(parent.kids[i]) == [parent.kids[i].wp]
    ensures Panes(AfterClose(parent, i)) == PanesAll(parent.kids[..i]) + PanesAll(parent.kids[i + 1..])
  {
    var kids := KidsAfterClose(parent, i);
    HeirAdjusted(parent, i);
    PanesWithout(parent.kids, Heir(i), Adjust(parent.kids[Heir(i)], parent.dir, Size(parent.kids[i], parent.dir) + 1), i);
    PanesAllAt(parent.kids, i);
    if |kids| == 1 { assert PanesAll(kids) == Panes(kids[0]) + PanesAll([]); }
  }

  lemma DestroyTreePanes(t: Tree, p: Path)
    requires CanClose(t, p)
    ensures var q, i := p[..|p| - 1], p[|p| - 1];
            && IsPath(t, q) && At(t, q).Node? && i < |At(t, q).kids| && Sound(At(t, q))
            && At(t, q).kids[i] == At(t, p) && Size(At(t, p), At(t, q).dir) >= 1
            && Panes(DestroyTree(t, p)) == Panes(Replace(t, q, AfterClose(At(t, q), i)))
  {
    var q, i := p[..|p| - 1], p[|p| - 1];
    ParentOf(t, p);
    AtKeeps(t, q);
    AtKeeps(t, p);
    PositiveSize(At(t, p), At(t, q).dir);
    AfterCloseTiled(At(t, q), i);
    MovedKeeps(AfterClose(At(t, q), i), 0, 0);
  }

  lemma DestroyPanes(t: Tree, p: Path)
    returns (pre: seq<Option<PaneId>>, post: seq<Option<PaneId>>)
    requires CanClose(t, p)
    ensures Panes(t) == pre + [At(t, p).wp] + post
    ensures Panes(DestroyTree(t, p)) == pre + post
  {
    hide Panes, PanesAll, AfterClose, DestroyTree;
    DestroyTreePanes(t, p);
    var q, i := p[..|p| - 1], p[|p| - 1];
    var parent := At(t, q);
    AfterClosePanes(parent, i);
    var a, b := ReplacePanes(t, q, AfterClose(parent, i));
    var l, r := PanesAll(parent.kids[..i]), PanesAll(parent.kids[i + 1..]);
    Regroup(a, l, [At(t, p).wp], r, b);
    Regroup(a, l, [], r, b);
    pre, post := a + l, r + b;
  }

  /** A close removes exactly the closed leaf's pane from the order. */
  lemma ClosePanes(t: Tree, p: Path)
    returns (pre: seq<Option<PaneId>>, post: seq<Option<PaneId>>)
    requires CanClose(t, p)
    ensures Panes(t) == pre + [At(t, p).wp] + post
    ensures Panes(CloseTree(t, p)) == pre + post
  {
    hide DestroyTree;
    pre, post := DestroyPanes(t, p);
    var u := DestroyTree(t, p);
    PutPanes(u, u.xoff, u.yoff);
  }
}
