// Trees whose cells already sit where layout_fix_offsets would put them.
module LayoutPlaced {
  import opened LayoutTree
  import opened LayoutOffsets
  import opened LayoutPaths

  predicate Placed(t: Tree) {
    FixOffsets(t) == t
  }

  /** A run of children that already sit where layout_fix_offsets puts them. */
  predicate PlacedRun(kids: seq<Tree>, dir: Direction, x: int, y: int) {
    kids == [] ||
    (Put(kids[0], x, y) == kids[0] &&
     PlacedRun(kids[1..], dir, NextX(dir, x, kids[0]), NextY(dir, y, kids[0])))
  }

  lemma {:induction false} PlacedRunIff(kids: seq<Tree>, dir: Direction, x: int, y: int)
    ensures PlacedRun(kids, dir, x, y) <==> PutAll(kids, dir, x, y) == kids
  {
    if kids != [] {
      var rest := PutAll(kids[1..], dir, NextX(dir, x, kids[0]), NextY(dir, y, kids[0]));
      PlacedRunIff(kids[1..], dir, NextX(dir, x, kids[0]), NextY(dir, y, kids[0]));
      assert ([Put(kids[0], x, y)] + rest)[1..] == rest;
    }
  }

  lemma PlacedIff(t: Tree)
    ensures Placed(t) <==> t.Leaf? || PlacedRun(t.kids, t.dir, t.xoff, t.yoff)
  {
    if t.Node? { PlacedRunIff(t.kids, t.dir, t.xoff, t.yoff); }
  }

  lemma PlacedRunCons(k: Tree, rest: seq<Tree>, dir: Direction, x: int, y: int)
    ensures PlacedRun([k] + rest, dir, x, y) <==>
            Put(k, x, y) == k && PlacedRun(rest, dir, NextX(dir, x, k), NextY(dir, y, k))
  {
    assert ([k] + rest)[1..] == rest;
  }

  lemma {:induction false} RunUpdate(kids: seq<Tree>, dir: Direction, x: int, y: int, i: nat, k: Tree)
    requires i < |kids| && PlacedRun(kids, dir, x, y)
    requires k.sx == kids[i].sx && k.sy == kids[i].sy && k.xoff == kids[i].xoff && k.yoff == kids[i].yoff
    requires Placed(k)
    ensures PlacedRun(kids[i := k], dir, x, y)
  {
    if i == 0 {
      assert kids[0 := k][1..] == kids[1..];
    } else {
      assert kids[i := k][1..] == kids[1..][i - 1 := k];
      RunUpdate(kids[1..], dir, NextX(dir, x, kids[0]), NextY(dir, y, kids[0]), i - 1, k);
    }
  }

  lemma {:induction false} RunPlaced(kids: seq<Tree>, dir: Direction, x: int, y: int, i: nat)
    requires i < |kids| && PlacedRun(kids, dir, x, y)
    ensures Placed(kids[i])
  {
    if i > 0 { RunPlaced(kids[1..], dir, NextX(dir, x, kids[0]), NextY(dir, y, kids[0]), i - 1); }
  }

  lemma {:induction false} AtPlaced(t: Tree, p: Path)
    requires IsPath(t, p) && Placed(t)
    ensures Placed(At(t, p))
  {
    if p != [] {
      PlacedIff(t);
      RunPlaced(t.kids, t.dir, t.xoff, t.yoff, p[0]);
      AtPlaced(t.kids[p[0]], p[1..]);
    }
  }

  lemma {:induction false} ReplacePlaced(t: Tree, p: Path, s: Tree)
    requires IsPath(t, p) && Placed(t) && Placed(s)
    requires var o := At(t, p);
             s.sx == o.sx && s.sy == o.sy && s.xoff == o.xoff && s.yoff == o.yoff
    ensures var r := Replace(t, p, s);
            Placed(r) && r.sx == t.sx && r.sy == t.sy && r.xoff == t.xoff && r.yoff == t.yoff
  {
    if p != [] {
      PlacedIff(t);
      RunPlaced(t.kids, t.dir, t.xoff, t.yoff, p[0]);
      ReplacePlaced(t.kids[p[0]], p[1..], s);
      RunUpdate(t.kids, t.dir, t.xoff, t.yoff, p[0], Replace(t.kids[p[0]], p[1..], s));
      PlacedIff(Replace(t, p, s));
    }
  }
}
