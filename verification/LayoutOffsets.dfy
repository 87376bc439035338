// layout_fix_offsets: placing cells from their sizes, and the geometry that
// results: leaves and separators partition the root rectangle.
module LayoutOffsets {
  import opened Common
  import opened LayoutTree

  /** The tree moved to (x, y), with every descendant placed from the sizes. */
  function Put(t: Tree, x: int, y: int): (r: Tree)
    ensures r.Node? == t.Node? && r.sx == t.sx && r.sy == t.sy && r.xoff == x && r.yoff == y
    decreases t, 1
  {
    match t
    case Leaf(sx, sy, _, _, wp) => Leaf(sx, sy, x, y, wp)
    case Node(dir, sx, sy, _, _, kids) => Node(dir, sx, sy, x, y, PutAll(kids, dir, x, y))
  }

  function PutAll(kids: seq<Tree>, dir: Direction, x: int, y: int): (r: seq<Tree>)
    ensures |r| == |kids|
    ensures forall i :: 0 <= i < |kids| ==> r[i].sx == kids[i].sx && r[i].sy == kids[i].sy
    decreases kids, 0
  {
    if kids == [] then []
    else [Put(kids[0], x, y)] + PutAll(kids[1..], dir, NextX(dir, x, kids[0]), NextY(dir, y, kids[0]))
  }

  // Where the cell after k goes, past one separator.
  function NextX(dir: Direction, x: int, k: Tree): int {
    if dir == LeftRight then x + k.sx + 1 else x
  }

  function NextY(dir: Direction, y: int, k: Tree): int {
    if dir == LeftRight then y else y + k.sy + 1
  }

  function FixOffsets(t: Tree): Tree {
    Put(t, t.xoff, t.yoff)
  }

  /** The root at (x, y), its descendants where they were. */
  function Moved(t: Tree, x: int, y: int): Tree {
    match t
    case Leaf(sx, sy, _, _, wp) => Leaf(sx, sy, x, y, wp)
    case Node(dir, sx, sy, _, _, kids) => Node(dir, sx, sy, x, y, kids)
  }

  lemma PutMoved(t: Tree, x: int, y: int)
    ensures FixOffsets(Moved(t, x, y)) == Put(t, x, y)
    ensures t.Leaf? ==> Put(t, x, y) == Moved(t, x, y)
  {}

  // ----- Points

  predicate InBox(t: Tree, x: int, y: int) {
    t.xoff <= x < t.xoff + t.sx && t.yoff <= y < t.yoff + t.sy
  }

  function One(b: bool): nat {
    if b then 1 else 0
  }

  /** How many leaves of the tree hold the point. */
  function LeafHits(t: Tree, x: int, y: int): nat
    decreases t, 1
  {
    match t
    case Leaf(_, _, _, _, _) => One(InBox(t, x, y))
    case Node(_, _, _, _, _, kids) => LeafHitsAll(kids, x, y)
  }

  function LeafHitsAll(kids: seq<Tree>, x: int, y: int): nat
    decreases kids, 0
  {
    if kids == [] then 0 else LeafHits(kids[0], x, y) + LeafHitsAll(kids[1..], x, y)
  }

  /** The one-column or one-row strip after child k of container t. */
  predicate InSeparator(t: Tree, k: Tree, x: int, y: int)
    requires t.Node?
  {
    if t.dir == LeftRight
    then x == k.xoff + k.sx && t.yoff <= y < t.yoff + t.sy
    else y == k.yoff + k.sy && t.xoff <= x < t.xoff + t.sx
  }

  /** How many separators of the tree hold the point. */
  function SeparatorHits(t: Tree, x: int, y: int): nat
    decreases t, 1
  {
    match t
    case Leaf(_, _, _, _, _) => 0
    case Node(_, _, _, _, _, kids) =>
      SeparatorHitsAll(kids, x, y) + BetweenHits(t, kids, x, y)
  }

  function SeparatorHitsAll(kids: seq<Tree>, x: int, y: int): nat
    decreases kids, 0
  {
    if kids == [] then 0 else SeparatorHits(kids[0], x, y) + SeparatorHitsAll(kids[1..], x, y)
  }

  /** Separators between neighbours in a run of t's children. */
  function BetweenHits(t: Tree, kids: seq<Tree>, x: int, y: int): nat
    requires t.Node?
  {
    if |kids| <= 1 then 0
    else One(InSeparator(t, kids[0], x, y)) + BetweenHits(t, kids[1..], x, y)
  }

  /** Leaves are at least one cell each way. */
  predicate Positive(t: Tree) {
    match t
    case Leaf(_, _, _, _, _) => t.sx >= 1 && t.sy >= 1
    case Node(_, _, _, _, _, kids) => forall k | k in kids :: Positive(k)
  }

  lemma {:induction false} PositiveSize(t: Tree, d: Direction)
    requires Tiled(t) && Positive(t)
    ensures Size(t, d) >= 1
  {
    if t.Node? {
      assert t.kids[0] in t.kids;
      forall i | 0 <= i < |t.kids| ensures Sizes(t.kids, d)[i] >= 1 {
        PositiveSize(t.kids[i], d);
      }
      SumNonNegative(Sizes(t.kids, d));
    }
  }

  /** Children of a container placed from (x, y): every point of the run of
      children and separators is hit once, every other point never. */
  lemma {:induction false} RunPartition(
    t: Tree, kids: seq<Tree>, x: int, y: int, px: int, py: int)
    requires t.Node? && kids != []
    requires forall k | k in kids :: Tiled(k) && Positive(k) && Size(k, Other(t.dir)) == Size(t, Other(t.dir))
    requires if t.dir == LeftRight then t.yoff == y else t.xoff == x
    ensures var r := PutAll(kids, t.dir, x, y);
            var len := Sum(Sizes(kids, t.dir)) + |kids| - 1;
            LeafHitsAll(r, px, py) + SeparatorHitsAll(r, px, py) + BetweenHits(t, r, px, py)
            == if t.dir == LeftRight
               then One(x <= px < x + len && y <= py < y + t.sy)
               else One(x <= px < x + t.sx && y <= py < y + len)
    decreases kids, 0
  {
    var r := PutAll(kids, t.dir, x, y);
    assert kids[0] in kids;
    PointPartition(kids[0], x, y, px, py);
    PositiveSize(kids[0], t.dir);
    assert Sizes(kids, t.dir)[1..] == Sizes(kids[1..], t.dir);
    if |kids| == 1 {
      assert LeafHitsAll(r[1..], px, py) == 0 && SeparatorHitsAll(r[1..], px, py) == 0;
    } else {
      var x', y' := NextX(t.dir, x, kids[0]), NextY(t.dir, y, kids[0]);
      RunPartition(t, kids[1..], x', y', px, py);
      assert r[1..] == PutAll(kids[1..], t.dir, x', y');
      forall i | 0 <= i < |kids[1..]| ensures Sizes(kids[1..], t.dir)[i] >= 1 {
        assert kids[1..][i] in kids;
        PositiveSize(kids[1..][i], t.dir);
      }
      SumNonNegative(Sizes(kids[1..], t.dir));
    }
  }

  /** Once placed, a tiled tree partitions its rectangle: every point inside
      lies in exactly one leaf or exactly one separator, every point outside
      in none. */
  lemma {:induction false} PointPartition(t: Tree, x: int, y: int, px: int, py: int)
    requires Tiled(t) && Positive(t)
    ensures var r := Put(t, x, y);
            LeafHits(r, px, py) + SeparatorHits(r, px, py) == One(InBox(r, px, py))
    decreases t, 1
  {
    if t.Node? {
      forall k | k in t.kids ensures Size(k, Other(t.dir)) == Size(t, Other(t.dir)) {
        assert Fits(t, Other(t.dir));
      }
      RunPartition(Put(t, x, y), t.kids, x, y, px, py);
    }
  }
}
