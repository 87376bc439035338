// Fitting a window's panes into a parsed layout (layout_parse): cells too many
// go from the bottom right, the panes are assigned in order, and the layout is
// brought to the window's size.
module LayoutFit {
  import opened Common
  import opened LayoutTree
  import opened LayoutOffsets
  import opened LayoutPaths
  import opened LayoutPlaced
  import opened LayoutClose
  import opened LayoutText
  import opened LayoutDump
  import W = LayoutWindow

  // ----- The bottom right cell

  // layout_find_bottomright
  function BottomRight(t: Tree): (p: Path)
    requires Inhabited(t)
    ensures IsPath(t, p) && At(t, p).Leaf? && (t.Node? ==> p != [])
  {
    if t.Leaf? then [] else
      var last := |t.kids| - 1;
      var p := BottomRight(t.kids[last]);
      assert ([last] + p)[1..] == p;
      [last] + p
  }

  /** Last children only, all the way. */
  predicate OnRight(t: Tree, q: Path) {
    q == [] || (t.Node? && t.kids != [] && q[0] == |t.kids| - 1 && OnRight(t.kids[q[0]], q[1..]))
  }

  lemma {:induction false} BottomRightPath(t: Tree)
    requires Inhabited(t) && t.Node?
    ensures var p := BottomRight(t);
            var q := p[..|p| - 1];
            IsPath(t, q) && OnRight(t, q) && At(t, q).Node? && p[|p| - 1] == |At(t, q).kids| - 1
  {
    var k := t.kids[|t.kids| - 1];
    var p, a := BottomRight(t), BottomRight(k);
    assert p == [|t.kids| - 1] + a;
    if k.Node? {
      BottomRightPath(k);
      assert p[..|p| - 1] == [|t.kids| - 1] + a[..|a| - 1];
      assert p[..|p| - 1][1..] == a[..|a| - 1];
    }
  }

  lemma {:induction false} OnRightPanes(t: Tree, q: Path, s: Tree) returns (pre: seq<Option<PaneId>>)
    requires IsPath(t, q) && OnRight(t, q)
    ensures Panes(t) == pre + Panes(At(t, q)) && Panes(Replace(t, q, s)) == pre + Panes(s)
  {
    if q == [] {
      pre := [];
    } else {
      var i := q[0];
      var a := OnRightPanes(t.kids[i], q[1..], s);
      var k := Replace(t.kids[i], q[1..], s);
      PanesAllUpdate(t.kids, i, k);
      pre := PanesAll(t.kids[..i]) + a;
      assert t.kids[i + 1..] == [];
      Concat(PanesAll(t.kids[..i]), a, Panes(At(t, q)));
      Concat(PanesAll(t.kids[..i]), a, Panes(s));
    }
  }

  // ----- Taking cells away

  lemma {:induction false} CountPanes(t: Tree)
    ensures CountCells(t) == |Panes(t)|
    decreases t, 1
  {
    if t.Node? { CountAllPanes(t.kids); }
  }

  lemma {:induction false} CountAllPanes(kids: seq<Tree>)
    ensures CountAll(kids) == |PanesAll(kids)|
    decreases kids, 0
  {
    if kids != [] {
      CountPanes(kids[0]);
      CountAllPanes(kids[1..]);
    }
  }

  /** One turn of the loop: exactly the last leaf goes. */
  lemma TrimStep(t: Tree)
    requires Sound(t) && CountCells(t) >= 2
    ensures CanClose(t, BottomRight(t))
    ensures var r := DestroyTree(t, BottomRight(t));
            && Sound(r) && r.sx == t.sx && r.sy == t.sy
            && (t.xoff == 0 && t.yoff == 0 ==> r.xoff == 0 && r.yoff == 0)
            && CountCells(r) == CountCells(t) - 1 && |Panes(t)| >= 1 && Panes(r) == Panes(t)[..|Panes(t)| - 1]
  {
    hide Panes, PanesAll, AfterClose, DestroyTree, CountCells, Sound, BottomRight, OnRight;
    SoundNode(t);
    var p := BottomRight(t);
    BottomRightPath(t);
    DestroyKeeps(t, p);
    DestroyTreePanes(t, p);
    var q, i := p[..|p| - 1], p[|p| - 1];
    var parent := At(t, q);
    AfterClosePanes(parent, i);
    ParentOf(t, p);
    var pre := OnRightPanes(t, q, AfterClose(parent, i));
    LastKid(parent.kids, i);
    var l := PanesAll(parent.kids[..i]);
    Concat(pre, l, [At(t, p).wp]);
    assert Panes(t) == (pre + l) + [At(t, p).wp];
    CountPanes(t);
    CountPanes(DestroyTree(t, p));
  }

  lemma SoundNode(t: Tree)
    requires Sound(t) && CountCells(t) >= 2
    ensures t.Node? && Inhabited(t) && CanClose(t, BottomRight(t))
  {}

  lemma LastKid(kids: seq<Tree>, i: nat)
    requires i == |kids| - 1
    ensures kids[i + 1..] == [] && PanesAll(kids[i + 1..]) == []
  {}

  /** The loop of layout_parse for n panes. */
  ghost function TrimTree(t: Tree, n: nat): Tree
    requires Sound(t) && 1 <= n <= CountCells(t)
    decreases CountCells(t)
  {
    if CountCells(t) == n then t
    else
      TrimStep(t);
      TrimTree(DestroyTree(t, BottomRight(t)), n)
  }

  /** As many cells as panes are left, the first ones in their order, filling
      the same area. */
  lemma {:induction false} TrimKeeps(t: Tree, n: nat)
    requires Sound(t) && 1 <= n <= CountCells(t)
    ensures var r := TrimTree(t, n);
            && Sound(r) && r.sx == t.sx && r.sy == t.sy && CountCells(r) == n
            && (t.xoff == 0 && t.yoff == 0 ==> r.xoff == 0 && r.yoff == 0)
            && n <= |Panes(t)| && Panes(r) == Panes(t)[..n]
    decreases CountCells(t)
  {
    hide Panes, DestroyTree, CountCells, Sound, BottomRight;
    CountPanes(t);
    if CountCells(t) != n {
      SoundNode(t);
      TrimStep(t);
      TrimKeeps(DestroyTree(t, BottomRight(t)), n);
      assert Panes(t)[..|Panes(t)| - 1][..n] == Panes(t)[..n];
    }
  }

  // ----- Assigning panes

  /** The leaves hold the first panes in order; nothing else changes. */
  lemma {:induction false} AssignKeeps(t: Tree, ps: seq<Option<PaneId>>)
    requires |ps| >= CountCells(t)
    ensures var (r, rest) := Assign(t, ps);
            && Panes(r) == ps[..CountCells(t)] && rest == ps[CountCells(t)..] && Bare(r) == Bare(t)
    decreases t, 1
  {
    if t.Node? { AssignAllKeeps(t.kids, ps); }
  }

  lemma {:induction false} AssignAllKeeps(kids: seq<Tree>, ps: seq<Option<PaneId>>)
    requires |ps| >= CountAll(kids)
    ensures var (r, rest) := AssignAll(kids, ps);
            && PanesAll(r) == ps[..CountAll(kids)] && rest == ps[CountAll(kids)..] && BareAll(r) == BareAll(kids)
    decreases kids, 0
  {
    if kids != [] {
      AssignKeeps(kids[0], ps);
      var (k, rest) := Assign(kids[0], ps);
      AssignAllKeeps(kids[1..], rest);
      var (ks, left) := AssignAll(kids[1..], rest);
      var a, b := CountCells(kids[0]), CountAll(kids[1..]);
      assert ([k] + ks)[1..] == ks;
      assert ps[..a + b] == ps[..a] + ps[a..][..b] && ps[a..][b..] == ps[a + b..];
    }
  }

  /** What cells hold does not matter for their sizes. */
  lemma {:induction false} BareFits(t: Tree, d: Direction)
    ensures Size(Bare(t), d) == Size(t, d) && (Fits(Bare(t), d) <==> Fits(t, d))
    decreases t, 1
  {
    if t.Node? { BareAllFits(t.kids, d, Size(t, d)); }
  }

  lemma {:induction false} BareAllFits(kids: seq<Tree>, d: Direction, n: int)
    ensures Sizes(BareAll(kids), d) == Sizes(kids, d)
    ensures (forall k | k in BareAll(kids) :: Fits(k, d)) <==> (forall k | k in kids :: Fits(k, d))
    ensures (forall k | k in BareAll(kids) :: Size(k, d) == n) <==> (forall k | k in kids :: Size(k, d) == n)
    decreases kids, 0
  {
    hide Bare, Fits;
    if kids != [] {
      BareFits(kids[0], d);
      BareAllFits(kids[1..], d, n);
      FirstAndRest(kids);
      FirstAndRest(BareAll(kids));
      assert BareAll(kids)[1..] == BareAll(kids[1..]);
      assert Sizes(kids, d) == [Size(kids[0], d)] + Sizes(kids[1..], d);
      assert Sizes(BareAll(kids), d) == [Size(kids[0], d)] + Sizes(BareAll(kids[1..]), d);
    }
  }

  lemma FirstAndRest(kids: seq<Tree>)
    requires kids != []
    ensures forall k :: k in kids <==> k == kids[0] || k in kids[1..]
  {
    assert kids == [kids[0]] + kids[1..];
  }

  lemma {:induction false} BareShape(t: Tree)
    ensures (Inhabited(Bare(t)) <==> Inhabited(t)) && (Branching(Bare(t)) <==> Branching(t))
    ensures Positive(Bare(t)) <==> Positive(t)
    decreases t, 1
  {
    if t.Node? { BareAllShape(t.kids); }
  }

  lemma {:induction false} BareAllShape(kids: seq<Tree>)
    ensures (forall k | k in BareAll(kids) :: Inhabited(k)) <==> (forall k | k in kids :: Inhabited(k))
    ensures (forall k | k in BareAll(kids) :: Branching(k)) <==> (forall k | k in kids :: Branching(k))
    ensures (forall k | k in BareAll(kids) :: Positive(k)) <==> (forall k | k in kids :: Positive(k))
    decreases kids, 0
  {
    hide Bare, Inhabited, Branching, Positive;
    if kids != [] {
      BareShape(kids[0]);
      BareAllShape(kids[1..]);
      FirstAndRest(kids);
      FirstAndRest(BareAll(kids));
      assert BareAll(kids)[1..] == BareAll(kids[1..]);
    }
  }

  lemma BareSound(t: Tree)
    ensures Sound(Bare(t)) <==> Sound(t)
    ensures Bare(t).sx == t.sx && Bare(t).sy == t.sy && Bare(t).xoff == t.xoff && Bare(t).yoff == t.yoff
  {
    BareFits(t, LeftRight);
    BareFits(t, TopBottom);
    BareShape(t);
  }

  // ----- The whole of layout_parse

  /** The layout with panes ps in a window of sx by sy, from the parsed tree. */
  ghost function Fitted(b: Tree, ps: seq<Option<PaneId>>, sx: int, sy: int): Tree
    requires Sound(b) && 1 <= |ps| <= CountCells(b)
  {
    TrimKeeps(b, |ps|);
    var u := TrimTree(b, |ps|);
    AssignedSound(u, ps);
    Restored(u, ps, sx, sy)
  }

  lemma AssignedSound(u: Tree, ps: seq<Option<PaneId>>)
    requires Sound(u) && |ps| == CountCells(u)
    ensures var t := FixOffsets(Assign(u, ps).0);
            && Sound(t) && Placed(t) && t.sx == u.sx && t.sy == u.sy && t.xoff == u.xoff && t.yoff == u.yoff
            && Panes(t) == ps
  {
    hide Sound, Panes, Bare, Assign, CountCells, Put;
    var r := Assign(u, ps).0;
    AssignKeeps(u, ps);
    assert ps[..|ps|] == ps;
    BareSound(u);
    BareSound(r);
    PutKeepsAll(r, r.xoff, r.yoff);
    PutPanes(r, r.xoff, r.yoff);
  }

  /** Whatever tiled layout with two children or more in each container and
      leaves of one cell or more was parsed, the window then has one that is
      sound, covers it, is exact or minimal and holds exactly its own panes in
      their order. If the parsed root was at (0, 0) the window is in a state
      every run keeps. */
  lemma FittedKeeps(b: Tree, ps: seq<Option<PaneId>>, sx: int, sy: int)
    requires Sound(b) && 1 <= |ps| <= CountCells(b)
    requires W.Distinct(ps) && None !in ps
    ensures var w := W.Window(sx, sy, Fitted(b, ps, sx, sy));
            && Sound(w.root) && Placed(w.root) && W.Covers(w) && W.Exact(w) && Panes(w.root) == ps
            && (b.xoff == 0 && b.yoff == 0 ==> W.Invariant(w))
  {
    hide Sound, Panes, Assign, CountCells, TrimTree, Placed, W.ResizeTree, Check;
    TrimKeeps(b, |ps|);
    var u := TrimTree(b, |ps|);
    AssignedSound(u, ps);
    var t := FixOffsets(Assign(u, ps).0);
    W.ResizeKeeps(W.Window(t.sx, t.sy, t), sx, sy);
  }

  /** layout_parse on a window with panes ps; a failure changes nothing. */
  ghost function ParseInto(s: seq<Byte>, ps: seq<Option<PaneId>>, sx: int, sy: int): Option<Tree>
    requires |s| >= 5 && ps != [] && (Parse(s).Some? ==> Sound(Parse(s).value))
  {
    match Parse(s)
    case None => None
    case Some(b) => if |ps| > CountCells(b) then None else Some(Fitted(b, ps, sx, sy))
  }

  /** The dump of any window in a state every run keeps can be loaded into a
      window of any size with at most as many panes. */
  lemma DumpLoads(w: W.Window, ps: seq<Option<PaneId>>, sx: int, sy: int)
    requires W.Invariant(w) && Printable(w.root)
    requires ps != [] && W.Distinct(ps) && None !in ps
    ensures |Dump(w.root)| >= 5 && Parse(Dump(w.root)).Some? && Sound(Parse(Dump(w.root)).value)
    ensures var r := ParseInto(Dump(w.root), ps, sx, sy);
            && (r.Some? <==> |ps| <= |Panes(w.root)|)
            && (r.Some? ==>
                  var v := W.Window(sx, sy, r.value);
                  W.Invariant(v) && W.Exact(v) && Panes(v.root) == ps)
  {
    hide Dump, Parse, Bare, Sound, Printable, W.OneLeafPerPane, Fitted, Panes, CountCells, W.Exact;
    W.InvariantPanes(w);
    PanesNumbered(w.root);
    ParseDump(w.root);
    BareSound(w.root);
    AssignRestores(w.root, []);
    var b := Bare(w.root);
    if |ps| <= CountCells(b) { FittedKeeps(b, ps, sx, sy); }
  }
}
