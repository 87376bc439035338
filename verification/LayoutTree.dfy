// The pane layout tree of one window (layout.c): sizes, the space that can be
// taken out of a cell, and the even adjustment of a cell and its children.
module LayoutTree {
  import opened Common

  datatype Direction = LeftRight | TopBottom

  // Smallest size a resize may leave in a cell, not counting the separator.
  const PANE_MINIMUM := 2
  const UINT_MAX := 0xFFFF_FFFF

  type PaneId = nat

  datatype Tree =
    | Leaf(sx: int, sy: int, xoff: int, yoff: int, wp: Option<PaneId>)
    | Node(dir: Direction, sx: int, sy: int, xoff: int, yoff: int, kids: seq<Tree>)

  function Other(d: Direction): Direction {
    if d == LeftRight then TopBottom else LeftRight
  }

  function Size(t: Tree, d: Direction): int {
    if d == LeftRight then t.sx else t.sy
  }

  function Sizes(kids: seq<Tree>, d: Direction): (r: seq<int>)
    ensures |r| == |kids|
  {
    seq(|kids|, i requires 0 <= i < |kids| => Size(kids[i], d))
  }

  function SetSize(t: Tree, d: Direction, n: int): (r: Tree)
    ensures r.Node? == t.Node? && Size(r, d) == n && Size(r, Other(d)) == Size(t, Other(d))
  {
    if d == LeftRight then t.(sx := n) else t.(sy := n)
  }

  /** A container with a new size along d and new children. */
  function Refit(t: Tree, d: Direction, n: int, kids: seq<Tree>): (r: Tree)
    requires t.Node?
    ensures r.Node? && r.dir == t.dir && r.kids == kids
    ensures Size(r, d) == n && Size(r, Other(d)) == Size(t, Other(d))
  {
    if d == LeftRight then t.(sx := n, kids := kids) else t.(sy := n, kids := kids)
  }

  /** Every container has at least one child. */
  predicate Inhabited(t: Tree) {
    t.Leaf? || (t.kids != [] && forall k | k in t.kids :: Inhabited(k))
  }

  /** Along d, each container is exactly filled by its children: side by side
      with one separator between neighbours, or each as long as the container. */
  predicate Fits(t: Tree, d: Direction) {
    match t
    case Leaf(_, _, _, _, _) => true
    case Node(_, _, _, _, _, kids) =>
      && (forall k | k in kids :: Fits(k, d))
      && (if t.dir == d
          then Sum(Sizes(kids, d)) + |kids| - 1 == Size(t, d)
          else forall k | k in kids :: Size(k, d) == Size(t, d))
  }

  predicate Tiled(t: Tree) {
    Inhabited(t) && Fits(t, LeftRight) && Fits(t, TopBottom)
  }

  // ----- Space available

  function Check(t: Tree, d: Direction): (r: int)
    ensures r >= 0
    decreases t, 1
  {
    match t
    case Leaf(_, _, _, _, _) =>
      if Size(t, d) > PANE_MINIMUM then Size(t, d) - PANE_MINIMUM else 0
    case Node(dir, _, _, _, _, kids) =>
      if dir == d then
        SumNonNegative(Checks(kids, d));
        Sum(Checks(kids, d))
      else
        LeastIsMinimum(Checks(kids, d), UINT_MAX);
        Least(Checks(kids, d), UINT_MAX)
  }

  function Checks(kids: seq<Tree>, d: Direction): (r: seq<int>)
    ensures |r| == |kids|
    ensures forall i :: 0 <= i < |kids| ==> r[i] == Check(kids[i], d) && r[i] >= 0
    decreases kids, 0
  {
    seq(|kids|, i requires 0 <= i < |kids| => Check(kids[i], d))
  }
}
