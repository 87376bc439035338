// Cells below a root by path, and edits inside one subtree: what the cells
// around the subtree say does not change.
module LayoutShapes {
  import opened Common
  import opened LayoutTree
  import opened LayoutPaths
  import opened LayoutCells

  ghost predicate IsShapePath(sh: Shape, p: Path) {
    p == [] || (p[0] < |sh.kids| && IsShapePath(sh.kids[p[0]], p[1..]))
  }

  ghost function ShapeAt(sh: Shape, p: Path): Shape
    requires IsShapePath(sh, p)
  {
    if p == [] then sh else ShapeAt(sh.kids[p[0]], p[1..])
  }

  ghost function ReplaceShape(sh: Shape, p: Path, s: Shape): Shape
    requires IsShapePath(sh, p)
  {
    if p == [] then s
    else sh.(kids := sh.kids[p[0] := ReplaceShape(sh.kids[p[0]], p[1..], s)])
  }

  /** The cell the subtree at p hangs below. */
  ghost function ParentAt(sh: Shape, parent: Cell?, p: Path): Cell?
    requires IsShapePath(sh, p)
  {
    if p == [] then parent else ParentAt(sh.kids[p[0]], sh.cell, p[1..])
  }

  // ----- Subtrees of a linked shape

  lemma {:induction false} SubtreeLinked(sh: Shape, parent: Cell?, p: Path)
    requires Linked(sh, parent) && IsShapePath(sh, p)
    ensures Linked(ShapeAt(sh, p), ParentAt(sh, parent, p))
    ensures IsPath(TreeOf(sh), p) && At(TreeOf(sh), p) == TreeOf(ShapeAt(sh, p))
  {
    if p != [] {
      ChildLinked(sh, parent, p[0]);
      SubtreeLinked(sh.kids[p[0]], sh.cell, p[1..]);
    }
  }

  lemma {:induction false} SubtreeDistinct(sh: Shape, p: Path)
    requires Distinct(sh) && IsShapePath(sh, p)
    ensures Distinct(ShapeAt(sh, p)) && Cells(ShapeAt(sh, p)) <= Cells(sh)
  {
    if p != [] { SubtreeDistinct(sh.kids[p[0]], p[1..]); }
  }

  lemma {:induction false} ParentIsShape(sh: Shape, parent: Cell?, p: Path)
    requires IsShapePath(sh, p) && p != []
    ensures IsShapePath(sh, p[..|p| - 1])
    ensures var q := ShapeAt(sh, p[..|p| - 1]);
            ParentAt(sh, parent, p) == q.cell && p[|p| - 1] < |q.kids| && q.kids[p[|p| - 1]] == ShapeAt(sh, p)
  {
    if |p| > 1 {
      ParentIsShape(sh.kids[p[0]], sh.cell, p[1..]);
      assert p[1..][..|p| - 2] == p[..|p| - 1][1..];
    }
  }

  lemma CellBelow(sh: Shape, c: Cell) returns (i: nat)
    requires c in Cells(sh) && c != sh.cell
    ensures i < |sh.kids| && c in Cells(sh.kids[i])
  {
    var j :| 0 <= j < |sh.kids| && c in Cells(sh.kids[j]);
    i := j;
  }

  lemma {:induction false} ReplaceShapeSelf(sh: Shape, p: Path)
    requires IsShapePath(sh, p)
    ensures ReplaceShape(sh, p, ShapeAt(sh, p)) == sh
  {
    if p != [] { ReplaceShapeSelf(sh.kids[p[0]], p[1..]); }
  }

  lemma {:induction false} ReplaceShapeBelow(sh: Shape, p: Path, k: Shape)
    requires IsShapePath(sh, p) && p != []
    ensures var q, m := p[..|p| - 1], p[|p| - 1];
            && IsShapePath(sh, q) && m < |ShapeAt(sh, q).kids|
            && var sg := ShapeAt(sh, q);
            ReplaceShape(sh, q, sg.(kids := sg.kids[m := k])) == ReplaceShape(sh, p, k)
  {
    if |p| > 1 {
      ReplaceShapeBelow(sh.kids[p[0]], p[1..], k);
      assert p[1..][..|p| - 2] == p[..|p| - 1][1..];
    }
  }

  // ----- Around a subtree

  /** The cells outside the subtree at p. */
  ghost function Around(sh: Shape, p: Path): set<Cell>
    requires IsShapePath(sh, p)
  {
    if p == [] then {}
    else {sh.cell} + Siblings(sh, p[0]) + Around(sh.kids[p[0]], p[1..])
  }

  /** The cells below the other children of a cell. */
  ghost function Siblings(sh: Shape, i: nat): (r: set<Cell>)
    ensures forall j :: 0 <= j < |sh.kids| && j != i ==> Cells(sh.kids[j]) <= r
  {
    set j, c | 0 <= j < |sh.kids| && j != i && c in Cells(sh.kids[j]) :: c
  }

  lemma SiblingsBelow(sh: Shape, i: nat)
    ensures Siblings(sh, i) <= CellsAll(sh.kids) <= Cells(sh)
  {}

  lemma SiblingCells(sh: Shape, i: nat)
    requires i < |sh.kids| && Distinct(sh)
    ensures Cells(sh) == {sh.cell} + Siblings(sh, i) + Cells(sh.kids[i])
    ensures sh.cell !in Cells(sh.kids[i]) && sh.cell !in Siblings(sh, i) && Distinct(sh.kids[i])
    ensures Siblings(sh, i) !! Cells(sh.kids[i])
  {
    hide Cells, CellsAll, Distinct;
    TopCell(sh);
    SiblingsBelow(sh, i);
    SiblingsApart(sh, i);
    ChildCells(sh, i);
    forall c | c in Cells(sh) ensures c in {sh.cell} + Siblings(sh, i) + Cells(sh.kids[i]) {
      if c != sh.cell {
        var j := CellBelow(sh, c);
      }
    }
  }

  lemma SiblingsApart(sh: Shape, i: nat)
    requires i < |sh.kids| && Distinct(sh)
    ensures sh.cell !in Siblings(sh, i) && Siblings(sh, i) !! Cells(sh.kids[i])
  {
    hide Cells, CellsAll;
    ChildCells(sh, i);
  }

  lemma ReplaceKid(sh: Shape, i: nat, k: Shape)
    requires i < |sh.kids| && Distinct(sh) && Distinct(k)
    requires sh.cell !in Cells(k) && Siblings(sh, i) !! Cells(k)
    ensures var r := sh.(kids := sh.kids[i := k]);
            Distinct(r) && Cells(r) == {sh.cell} + Siblings(sh, i) + Cells(k)
  {
    hide Cells, CellsAll, Distinct;
    var r := sh.(kids := sh.kids[i := k]);
    TopCell(r);
    ReplaceKidDistinct(sh, i, k);
    forall c | c in Cells(r) ensures c in {sh.cell} + Siblings(sh, i) + Cells(k) {
      if c != r.cell {
        var j := CellBelow(r, c);
      }
    }
    forall c | c in {sh.cell} + Siblings(sh, i) + Cells(k) ensures c in Cells(r) {
      if c in Siblings(sh, i) {
        var j :| 0 <= j < |sh.kids| && j != i && c in Cells(sh.kids[j]);
        assert r.kids[j] == sh.kids[j];
      } else if c in Cells(k) {
        assert r.kids[i] == k;
      }
    }
  }

  lemma ReplaceKidDistinct(sh: Shape, i: nat, k: Shape)
    requires i < |sh.kids| && Distinct(sh) && Distinct(k)
    requires sh.cell !in Cells(k) && Siblings(sh, i) !! Cells(k)
    ensures Distinct(sh.(kids := sh.kids[i := k]))
  {
    hide Cells, CellsAll;
  }

  ghost predicate LinkedAround(sh: Shape, parent: Cell?, p: Path)
    requires IsShapePath(sh, p)
    reads Around(sh, p)`parent, Around(sh, p)`cells, Around(sh, p)`kind
    decreases p
  {
    p == [] ||
    (&& LinkedHere(sh, parent)
     && (forall j :: 0 <= j < |sh.kids| && j != p[0] ==> Linked(sh.kids[j], sh.cell))
     && LinkedAround(sh.kids[p[0]], sh.cell, p[1..]))
  }

  /** Around p the cells stand for t. */
  ghost predicate MatchesAround(sh: Shape, p: Path, t: Tree)
    requires IsShapePath(sh, p)
    reads Around(sh, p)
    decreases p
  {
    p == [] ||
    (&& t.Node? && |t.kids| == |sh.kids| && sh.cell.kind == Container(t.dir)
     && t.sx == sh.cell.sx && t.sy == sh.cell.sy && t.xoff == sh.cell.xoff && t.yoff == sh.cell.yoff
     && (forall j :: 0 <= j < |sh.kids| && j != p[0] ==> TreeOf(sh.kids[j]) == t.kids[j])
     && MatchesAround(sh.kids[p[0]], p[1..], t.kids[p[0]]))
  }

  lemma {:induction false} SplitAround(sh: Shape, parent: Cell?, p: Path)
    requires IsShapePath(sh, p) && Linked(sh, parent)
    ensures LinkedAround(sh, parent, p) && MatchesAround(sh, p, TreeOf(sh))
  {
    if p != [] {
      ChildLinked(sh, parent, p[0]);
      TreeHere(sh);
      SplitAround(sh.kids[p[0]], sh.cell, p[1..]);
    }
  }

  lemma {:induction false} JoinLinked(sh: Shape, parent: Cell?, p: Path, s: Shape)
    requires IsShapePath(sh, p) && LinkedAround(sh, parent, p)
    requires p != [] ==> s.cell == ShapeAt(sh, p).cell
    requires Linked(s, ParentAt(sh, parent, p))
    ensures Linked(ReplaceShape(sh, p, s), parent)
    ensures p != [] ==> ReplaceShape(sh, p, s).cell == sh.cell
  {
    if p != [] {
      JoinLinked(sh.kids[p[0]], sh.cell, p[1..], s);
    }
  }

  lemma {:induction false} JoinTree(sh: Shape, parent: Cell?, p: Path, s: Shape, t: Tree)
    requires IsShapePath(sh, p) && MatchesAround(sh, p, t)
    ensures IsPath(t, p) && TreeOf(ReplaceShape(sh, p, s)) == Replace(t, p, TreeOf(s))
  {
    if p != [] {
      JoinTree(sh.kids[p[0]], sh.cell, p[1..], s, t.kids[p[0]]);
      var r := ReplaceShape(sh, p, s);
      TreeHere(r);
      assert TreesOf(r.kids) == t.kids[p[0] := Replace(t.kids[p[0]], p[1..], TreeOf(s))];
    }
  }

  lemma {:induction false} AroundDisjoint(sh: Shape, p: Path)
    requires IsShapePath(sh, p) && Distinct(sh)
    ensures Around(sh, p) !! Cells(ShapeAt(sh, p))
    ensures Cells(sh) == Around(sh, p) + Cells(ShapeAt(sh, p))
  {
    hide Cells, CellsAll, Distinct, Siblings;
    if p != [] {
      SiblingCells(sh, p[0]);
      AroundDisjoint(sh.kids[p[0]], p[1..]);
    }
  }

  lemma {:induction false} ReplaceDistinct(sh: Shape, p: Path, s: Shape)
    requires IsShapePath(sh, p) && Distinct(sh) && Distinct(s) && Around(sh, p) !! Cells(s)
    ensures Distinct(ReplaceShape(sh, p, s)) && Cells(ReplaceShape(sh, p, s)) == Around(sh, p) + Cells(s)
  {
    hide Cells, CellsAll, Distinct, Siblings;
    if p != [] {
      SiblingCells(sh, p[0]);
      AroundDisjoint(sh.kids[p[0]], p[1..]);
      ReplaceDistinct(sh.kids[p[0]], p[1..], s);
      ReplaceKid(sh, p[0], ReplaceShape(sh.kids[p[0]], p[1..], s));
    }
  }

  // ----- Building shapes

  function LeafShape(c: Cell): Shape {
    Shape(c, [])
  }

  lemma LeafShapeFacts(c: Cell)
    ensures Cells(LeafShape(c)) == {c} && Distinct(LeafShape(c))
  {
    assert CellsAll([]) == {};
  }

  lemma BuildLinked(s: Shape, parent: Cell?)
    requires LinkedHere(s, parent) && forall i :: 0 <= i < |s.kids| ==> Linked(s.kids[i], s.cell)
    ensures Linked(s, parent)
  {}

  lemma BuildTrees(kids: seq<Shape>, trees: seq<Tree>)
    requires |trees| == |kids| && forall i :: 0 <= i < |kids| ==> TreeOf(kids[i]) == trees[i]
    ensures TreesOf(kids) == trees
  {}

  lemma PairShape(top: Cell, a: Cell, b: Cell)
    requires top != a && top != b && a != b
    ensures var s := Shape(top, [LeafShape(a), LeafShape(b)]);
            Distinct(s) && Cells(s) == {top, a, b}
  {
    hide Distinct, Cells, CellsAll;
    LeafShapeFacts(a);
    LeafShapeFacts(b);
    var s := Shape(top, [LeafShape(a), LeafShape(b)]);
    PairDistinct(s, a, b);
    TopCell(s);
    assert s.kids[0] == LeafShape(a) && s.kids[1] == LeafShape(b);
    forall c | c in Cells(s) ensures c in {top, a, b} {
      if c != top { var i := CellBelow(s, c); }
    }
  }

  lemma PairDistinct(s: Shape, a: Cell, b: Cell)
    requires s.kids == [LeafShape(a), LeafShape(b)] && s.cell != a && s.cell != b && a != b
    ensures Distinct(s)
  {
    LeafShapeFacts(a);
    LeafShapeFacts(b);
  }

  /** A leaf child replaced by itself and a new leaf beside it. */
  lemma DivideShape(sh: Shape, i: nat, a: Cell, b: Cell, added: Cell)
    requires i < |sh.kids| && Distinct(sh) && Cells(sh.kids[i]) <= {a, b}
    requires a != b && added !in Cells(sh) && {a, b} == {sh.kids[i].cell, added}
    ensures var s := sh.(kids := sh.kids[..i] + [LeafShape(a), LeafShape(b)] + sh.kids[i + 1..]);
            Distinct(s) && Cells(s) == Cells(sh) + {added}
  {
    hide Cells, CellsAll;
    var kids := sh.kids[..i] + [LeafShape(a), LeafShape(b)] + sh.kids[i + 1..];
    var s := sh.(kids := kids);
    LeafShapeFacts(a);
    LeafShapeFacts(b);
    TopCell(sh.kids[i]);
    TopCell(sh);
    TopCell(s);
    assert forall j :: 0 <= j < i ==> kids[j] == sh.kids[j];
    assert forall j :: i + 2 <= j < |kids| ==> kids[j] == sh.kids[j - 1];
    forall j | 0 <= j < |kids| ensures Distinct(kids[j]) && s.cell !in Cells(kids[j]) {}
    forall j, k | 0 <= j < k < |kids| ensures Cells(kids[j]) !! Cells(kids[k]) {
      ChildCells(sh, i);
    }
    forall c | c in Cells(s) ensures c in Cells(sh) + {added} {
      if c != s.cell { var j := CellBelow(s, c); }
    }
    forall c | c in Cells(sh) + {added} ensures c in Cells(s) {
      if c == added || c == sh.kids[i].cell {
        assert c in Cells(kids[i]) || c in Cells(kids[i + 1]);
      } else if c != sh.cell {
        var j := CellBelow(sh, c);
        assert c in Cells(kids[if j < i then j else j + 1]);
      }
    }
  }

  lemma TopCell(sh: Shape)
    ensures sh.cell in Cells(sh)
  {}

  /** A child taken away. */
  lemma RemoveShape(sh: Shape, i: nat)
    requires i < |sh.kids| && Distinct(sh)
    ensures var s := sh.(kids := sh.kids[..i] + sh.kids[i + 1..]);
            Distinct(s) && Cells(s) == Cells(sh) - Cells(sh.kids[i])
  {
    hide Cells, CellsAll;
    var kids := sh.kids[..i] + sh.kids[i + 1..];
    var s := sh.(kids := kids);
    TopCell(sh);
    TopCell(s);
    ChildCells(sh, i);
    assert forall j :: 0 <= j < i ==> kids[j] == sh.kids[j];
    assert forall j :: i <= j < |kids| ==> kids[j] == sh.kids[j + 1];
    forall c | c in Cells(s) ensures c in Cells(sh) - Cells(sh.kids[i]) {
      if c != s.cell {
        var j := CellBelow(s, c);
        assert kids[j] == sh.kids[if j < i then j else j + 1];
      }
    }
    forall c | c in Cells(sh) - Cells(sh.kids[i]) ensures c in Cells(s) {
      if c != sh.cell {
        var j := CellBelow(sh, c);
        assert c in Cells(kids[if j < i then j else j - 1]);
      }
    }
  }

  lemma {:induction false} ReplacedShapeAt(sh: Shape, p: Path, s: Shape, n: nat)
    requires IsShapePath(sh, p) && n < |s.kids|
    ensures IsShapePath(ReplaceShape(sh, p, s), p + [n]) && ShapeAt(ReplaceShape(sh, p, s), p + [n]) == s.kids[n]
  {
    if p == [] {
      assert p + [n] == [n] && [n][1..] == [];
    } else {
      assert (p + [n])[1..] == p[1..] + [n];
      ReplacedShapeAt(sh.kids[p[0]], p[1..], s, n);
    }
  }

  /** Everything an edit inside the subtree at p starts from. */
  lemma OpenAt(sh: Shape, p: Path)
    requires Linked(sh, null) && Distinct(sh) && IsShapePath(sh, p)
    ensures var s, parent, t := ShapeAt(sh, p), ParentAt(sh, null, p), TreeOf(sh);
            && Linked(s, parent) && Distinct(s) && LinkedAround(sh, null, p) && MatchesAround(sh, p, t)
            && IsPath(t, p) && At(t, p) == TreeOf(s)
            && Cells(sh) == Around(sh, p) + Cells(s) && Around(sh, p) !! Cells(s)
            && s.cell in Cells(s)
    ensures forall c :: c in Cells(sh) ==> allocated(c)
  {
    SubtreeLinked(sh, null, p);
    SubtreeDistinct(sh, p);
    SplitAround(sh, null, p);
    AroundDisjoint(sh, p);
    AllAllocated(sh);
  }

  /** Putting an edited subtree back. */
  lemma CloseAt(sh: Shape, p: Path, s: Shape, t: Tree)
    requires IsShapePath(sh, p) && Distinct(sh) && LinkedAround(sh, null, p) && MatchesAround(sh, p, t)
    requires Linked(s, ParentAt(sh, null, p)) && Distinct(s) && Around(sh, p) !! Cells(s)
    requires p != [] ==> s.cell == ShapeAt(sh, p).cell
    ensures var r := ReplaceShape(sh, p, s);
            && Linked(r, null) && Distinct(r) && Cells(r) == Around(sh, p) + Cells(s)
            && IsPath(t, p) && TreeOf(r) == Replace(t, p, TreeOf(s))
            && (p != [] ==> r.cell == sh.cell)
  {
    JoinLinked(sh, null, p, s);
    JoinTree(sh, null, p, s, t);
    ReplaceDistinct(sh, p, s);
  }

  // ----- Children built below a parent

  /** Cells built below a parent: linked, apart from each other and from it. */
  ghost predicate Family(lc: Cell, kids: seq<Shape>)
    reads CellsAll(kids)`parent, CellsAll(kids)`cells, CellsAll(kids)`kind
  {
    && (forall i :: 0 <= i < |kids| ==> Linked(kids[i], lc) && Distinct(kids[i]) && lc !in Cells(kids[i]))
    && (forall i, j :: 0 <= i < j < |kids| ==> Cells(kids[i]) !! Cells(kids[j]))
  }

  lemma NoFamily(lc: Cell)
    ensures Family(lc, []) && CellsAll([]) == {} && TreesOf([]) == []
  {}

  lemma JoinFamily(lc: Cell, kids: seq<Shape>, k: Shape)
    requires Family(lc, kids) && Linked(k, lc) && Distinct(k) && lc !in Cells(k) && CellsAll(kids) !! Cells(k)
    ensures Family(lc, kids + [k]) && CellsAll(kids + [k]) == CellsAll(kids) + Cells(k)
    ensures TreesOf(kids + [k]) == TreesOf(kids) + [TreeOf(k)]
  {
    hide Linked, Distinct, TreeOf, TreesOf, Cells;
    var all := kids + [k];
    assert forall i :: 0 <= i < |kids| ==> all[i] == kids[i] && Cells(kids[i]) <= CellsAll(kids);
    forall c | c in CellsAll(all) ensures c in CellsAll(kids) + Cells(k) {
      var i :| 0 <= i < |all| && c in Cells(all[i]);
      assert i < |kids| ==> all[i] == kids[i];
    }
    assert all[|kids|] == k;
    BuildTrees(all, TreesOf(kids) + [TreeOf(k)]);
  }

  lemma BuiltLeaf(c: Cell, parent: Cell?)
    requires c.parent == parent && c.cells == [] && c.kind == WindowPane && c.wp == null
    ensures var s := LeafShape(c);
            Linked(s, parent) && Distinct(s) && Cells(s) == {c}
            && TreeOf(s) == Leaf(c.sx, c.sy, c.xoff, c.yoff, None)
  {
    LeafShapeFacts(c);
  }

  lemma BuiltNode(c: Cell, kids: seq<Shape>, parent: Cell?)
    requires c.parent == parent && |c.cells| == |kids| && c.kind.Container? && Family(c, kids)
    requires forall i :: 0 <= i < |kids| ==> c.cells[i] == kids[i].cell
    ensures var s := Shape(c, kids);
            Linked(s, parent) && Distinct(s) && Cells(s) == {c} + CellsAll(kids)
            && TreeOf(s) == Node(c.kind.dir, c.sx, c.sy, c.xoff, c.yoff, TreesOf(kids))
  {
    hide Linked, Distinct, TreeOf, TreesOf, Cells, CellsAll;
    var s := Shape(c, kids);
    BuildLinked(s, parent);
    DistinctHere(s);
    CellsHere(s);
    TreeHere(s);
  }

  lemma DistinctHere(s: Shape)
    requires forall i :: 0 <= i < |s.kids| ==> Distinct(s.kids[i]) && s.cell !in Cells(s.kids[i])
    requires forall i, j :: 0 <= i < j < |s.kids| ==> Cells(s.kids[i]) !! Cells(s.kids[j])
    ensures Distinct(s)
  {}

  lemma CellsHere(s: Shape)
    ensures Cells(s) == {s.cell} + CellsAll(s.kids)
  {}

  lemma FamilyAllocated(kids: seq<Shape>)
    ensures forall c :: c in CellsAll(kids) ==> allocated(c)
  {
    forall i | 0 <= i < |kids| ensures forall c :: c in Cells(kids[i]) ==> allocated(c) {
      AllAllocated(kids[i]);
    }
  }

  lemma FamilyApart(lc: Cell, kids: seq<Shape>)
    requires Family(lc, kids)
    ensures lc !in CellsAll(kids)
  {
    hide Linked, Distinct, Cells;
  }

  // ----- Panes and the leaves that hold them

  ghost function Owned(panes: seq<Pane>): (r: set<Pane>)
    ensures forall i :: 0 <= i < |panes| ==> panes[i] in r
  {
    set p | p in panes
  }

  ghost predicate NoRepeats(panes: seq<Pane>) {
    forall i, j :: 0 <= i < j < |panes| ==> panes[i] != panes[j]
  }

  /** Each of these panes and a leaf among the cells point at each other. */
  ghost predicate Held(panes: seq<Pane>, cells: set<Cell>)
    reads Owned(panes)`layoutCell, cells`wp, cells`kind
  {
    forall i :: 0 <= i < |panes| ==> HeldBy(panes[i], cells)
  }

  ghost predicate HeldBy(wp: Pane, cells: set<Cell>)
    reads wp`layoutCell, cells`wp, cells`kind
  {
    var c := wp.layoutCell;
    c != null && c in cells && c.wp == wp && c.kind == WindowPane
  }

  lemma HeldNone(panes: seq<Pane>, cells: set<Cell>)
    ensures Held(panes[..0], cells)
  {}

  lemma HeldOne(panes: seq<Pane>, i: nat, c: Cell)
    requires i < |panes| && panes[i].layoutCell == c && c.wp == panes[i] && c.kind == WindowPane
    ensures Held(panes[i..][..1], {c})
  {}

  lemma OwnedIn(panes: seq<Pane>)
    ensures forall p :: p in Owned(panes) ==> p in panes
  {}

  lemma PanesApart(panes: seq<Pane>, n: nat)
    requires NoRepeats(panes) && n <= |panes|
    ensures NoRepeats(panes[n..]) && Owned(panes[..n]) !! Owned(panes[n..]) && Owned(panes[n..]) <= Owned(panes)
    ensures forall p :: p in Owned(panes[..n]) ==> p in panes
    ensures n < |panes| ==> panes[n] in Owned(panes[n..])
  {}

  lemma HeldMore(panes: seq<Pane>, n: nat, m: nat, a: set<Cell>, b: set<Cell>)
    requires n + m <= |panes| && Held(panes[..n], a) && Held(panes[n..][..m], b)
    ensures Held(panes[..n + m], a + b) && panes[n..][m..] == panes[n + m..]
  {
    var all := panes[..n + m];
    forall i | 0 <= i < |all|
      ensures HeldBy(all[i], a + b)
    {
      if i < n {
        assert all[i] == panes[..n][i] && HeldBy(panes[..n][i], a);
      } else {
        assert all[i] == panes[n..][..m][i - n] && HeldBy(panes[n..][..m][i - n], b);
      }
    }
  }

  lemma HeldAmong(panes: seq<Pane>, a: set<Cell>, b: set<Cell>)
    requires Held(panes, a) && a <= b
    ensures Held(panes, b)
  {}
}
