// layout_split_pane and layout_assign_pane on layout trees.
module LayoutSplit {
  import opened Common
  import opened LayoutTree
  import opened LayoutOffsets
  import opened LayoutPaths
  import opened LayoutPlaced

  /** Size of the right or bottom half of a cell of size s: the hint, or half
      when the hint is negative, brought into PANE_MINIMUM .. s - 2. */
  function SecondSize(s: int, hint: int): int {
    var size := if hint < 0 then (s + 1) / 2 - 1 else hint;
    if size < PANE_MINIMUM then PANE_MINIMUM
    else if size > s - 2 then s - 2
    else size
  }

  function Offset(t: Tree, d: Direction): int {
    if d == LeftRight then t.xoff else t.yoff
  }

  /** The two cells a leaf is divided into; the new one has no pane yet. */
  function Halves(lc: Tree, d: Direction, hint: int, before: bool): (Tree, Tree)
    requires lc.Leaf?
  {
    var size2 := SecondSize(Size(lc, d), hint);
    var size1 := Size(lc, d) - 1 - size2;
    var wp1 := if before then None else lc.wp;
    var wp2 := if before then lc.wp else None;
    if d == LeftRight
    then (Leaf(size1, lc.sy, lc.xoff, lc.yoff, wp1),
          Leaf(size2, lc.sy, lc.xoff + size1 + 1, lc.yoff, wp2))
    else (Leaf(lc.sx, size1, lc.xoff, lc.yoff, wp1),
          Leaf(lc.sx, size2, lc.xoff, lc.yoff + size1 + 1, wp2))
  }

  /** The split joins an existing container when that runs in direction d. */
  predicate Joins(t: Tree, p: Path, d: Direction)
    requires IsPath(t, p)
  {
    p != [] && (PathPrefix(t, p, |p| - 1); At(t, p[..|p| - 1]).dir == d)
  }

  predicate CanSplit(lc: Tree, d: Direction) {
    Size(lc, d) >= PANE_MINIMUM * 2 + 1
  }

  /** Where the split edits the tree, and the container it leaves there. */
  function SplitPoint(t: Tree, p: Path, d: Direction): (point: Path)
    requires IsPath(t, p)
    ensures IsPath(t, point) && (Joins(t, p, d) ==> At(t, point).Node? && p[|p| - 1] < |At(t, point).kids|)
    ensures Joins(t, p, d) ==> At(t, point).kids[p[|p| - 1]] == At(t, p)
  {
    if Joins(t, p, d) then
      PathPrefix(t, p, |p| - 1);
      assert p[|p| - 1..] == [p[|p| - 1]] && [p[|p| - 1]][1..] == [];
      p[..|p| - 1]
    else p
  }

  function SplitContainer(t: Tree, p: Path, d: Direction, hint: int, before: bool): Tree
    requires IsPath(t, p) && At(t, p).Leaf?
  {
    var lc := At(t, p);
    var (c1, c2) := Halves(lc, d, hint, before);
    if Joins(t, p, d) then
      PathPrefix(t, p, |p| - 1);
      var parent := At(t, p[..|p| - 1]);
      var i := p[|p| - 1];
      parent.(kids := parent.kids[..i] + [c1, c2] + parent.kids[i + 1..])
    else Node(d, lc.sx, lc.sy, lc.xoff, lc.yoff, [c1, c2])
  }

  /** The tree after a split, with the path of the new cell; None when the
      cell is too small. */
  function SplitTree(t: Tree, p: Path, d: Direction, hint: int, before: bool): Option<(Tree, Path)>
    requires IsPath(t, p) && At(t, p).Leaf?
  {
    if !CanSplit(At(t, p), d) then None
    else
      var point := SplitPoint(t, p, d);
      PathPrefix(t, p, if p == [] then 0 else |p| - 1);
      var i := if Joins(t, p, d) then p[|p| - 1] else 0;
      Some((Replace(t, point, SplitContainer(t, p, d, hint, before)),
            point + [if before then i else i + 1]))
  }

  function Assign(t: Tree, p: Path, id: PaneId): Tree
    requires IsPath(t, p) && At(t, p).Leaf?
  {
    Replace(t, p, At(t, p).(wp := Some(id)))
  }

  /** A split followed by the assignment of the new pane. */
  function SplitAssign(t: Tree, p: Path, d: Direction, hint: int, before: bool, id: PaneId): Option<Tree>
    requires IsPath(t, p) && At(t, p).Leaf?
  {
    match SplitTree(t, p, d, hint, before)
    case None => None
    case Some((r, q)) =>
      NewCellPath(t, p, d, hint, before);
      Some(Assign(r, q, id))
  }

  lemma NewCell(t: Tree, p: Path, d: Direction, hint: int, before: bool, i: nat)
    requires IsPath(t, p) && At(t, p).Leaf?
    requires i == (if Joins(t, p, d) then p[|p| - 1] else 0) + (if before then 0 else 1)
    ensures var kids := SplitContainer(t, p, d, hint, before).kids;
            i < |kids| && kids[i].Leaf? && kids[i].wp == None
  {
    if Joins(t, p, d) { PathPrefix(t, p, |p| - 1); }
  }

  lemma NewCellPath(t: Tree, p: Path, d: Direction, hint: int, before: bool)
    requires IsPath(t, p) && At(t, p).Leaf? && CanSplit(At(t, p), d)
    ensures var (r, q) := SplitTree(t, p, d, hint, before).value;
            IsPath(r, q) && At(r, q).Leaf? && At(r, q).wp == None
  {
    var point := SplitPoint(t, p, d);
    var s := SplitContainer(t, p, d, hint, before);
    PathPrefix(t, p, |point|);
    ReplaceAt(t, point, s);
    var (r, q) := SplitTree(t, p, d, hint, before).value;
    var i := q[|point|];
    assert q == point + [i];
    NewCell(t, p, d, hint, before, i);
    assert [i][1..] == [];
    AtConcat(r, point, [i]);
  }

  // ----- What a split does

  /** The halves and their separator make up the cell. The second has the size
      asked for where that is from 2 to s - 2; half of the cell, the first the
      larger by at most one, where none is asked for; and the nearest size the
      code allows otherwise. */
  predicate HalfSizes(s: int, s1: int, s2: int, hint: int) {
    && s1 + 1 + s2 == s
    && (hint < 0 ==> 0 <= s1 - s2 <= 1)
    && (0 <= hint < 2 ==> s2 == 2)
    && (2 <= hint <= s - 2 ==> s2 == hint)
    && (hint > s - 2 ==> s1 == 1)
  }

  lemma SplitSizes(lc: Tree, d: Direction, hint: int, before: bool)
    requires lc.Leaf? && CanSplit(lc, d)
    ensures var (c1, c2) := Halves(lc, d, hint, before);
            var s, s1, s2 := Size(lc, d), Size(c1, d), Size(c2, d);
            && HalfSizes(s, s1, s2, hint) && s >= 5
            && Size(c1, Other(d)) == Size(c2, Other(d)) == Size(lc, Other(d))
    ensures var (c1, c2) := Halves(lc, d, hint, before);
            && c1.wp == (if before then None else lc.wp) && c2.wp == (if before then lc.wp else None)
            && c1.xoff == lc.xoff && c1.yoff == lc.yoff
            && (if d == LeftRight then c2.xoff == lc.xoff + c1.sx + 1 && c2.yoff == lc.yoff
                else c2.xoff == lc.xoff && c2.yoff == lc.yoff + c1.sy + 1)
  {}

  lemma InsertSizes(kids: seq<Tree>, i: nat, c1: Tree, c2: Tree, d: Direction)
    requires i < |kids| && Size(c1, d) + 1 + Size(c2, d) == Size(kids[i], d)
    ensures Sum(Sizes(kids[..i] + [c1, c2] + kids[i + 1..], d)) + 1 == Sum(Sizes(kids, d))
  {
    var a, b := Sizes(kids, d), Sizes(kids[..i] + [c1, c2] + kids[i + 1..], d);
    var two := [Size(c1, d), Size(c2, d)];
    assert b == a[..i] + two + a[i + 1..];
    SumAt(a, i);
    SumConcat(a[..i] + two, a[i + 1..]);
    SumConcat(a[..i], two);
    SumPair(Size(c1, d), Size(c2, d));
  }

  lemma InsertTiled(parent: Tree, i: nat, c1: Tree, c2: Tree, d: Direction)
    requires parent.Node? && parent.dir == d && i < |parent.kids| && Tiled(parent)
    requires Tiled(c1) && Tiled(c2)
    requires Size(c1, d) + 1 + Size(c2, d) == Size(parent.kids[i], d)
    requires Size(c1, Other(d)) == Size(c2, Other(d)) == Size(parent.kids[i], Other(d))
    ensures Tiled(parent.(kids := parent.kids[..i] + [c1, c2] + parent.kids[i + 1..]))
  {
    var r := parent.kids[..i] + [c1, c2] + parent.kids[i + 1..];
    InsertSizes(parent.kids, i, c1, c2, d);
    assert parent.kids[i] in parent.kids;
    forall k | k in r ensures Tiled(k) && Size(k, Other(d)) == Size(parent, Other(d)) {
      assert k == c1 || k == c2 || k in parent.kids;
      assert Fits(parent, Other(d));
    }
  }

  lemma InsertCheckAlong(parent: Tree, i: nat, c1: Tree, c2: Tree, d: Direction)
    requires parent.Node? && parent.dir == d && i < |parent.kids|
    requires Check(c1, d) + Check(c2, d) <= Check(parent.kids[i], d)
    ensures Check(parent.(kids := parent.kids[..i] + [c1, c2] + parent.kids[i + 1..]), d) <= Check(parent, d)
  {
    var a := Checks(parent.kids, d);
    var b := Checks(parent.kids[..i] + [c1, c2] + parent.kids[i + 1..], d);
    var two := [Check(c1, d), Check(c2, d)];
    assert b == a[..i] + two + a[i + 1..];
    SumAt(a, i);
    SumConcat(a[..i] + two, a[i + 1..]);
    SumConcat(a[..i], two);
    SumPair(Check(c1, d), Check(c2, d));
  }

  lemma InsertCheckAcross(parent: Tree, i: nat, c1: Tree, c2: Tree, d: Direction)
    requires parent.Node? && parent.dir != d && i < |parent.kids|
    requires Check(c1, d) == Check(c2, d) == Check(parent.kids[i], d)
    ensures Check(parent.(kids := parent.kids[..i] + [c1, c2] + parent.kids[i + 1..]), d) <= Check(parent, d)
  {
    hide Least;
    var r := parent.kids[..i] + [c1, c2] + parent.kids[i + 1..];
    var a, b := Checks(parent.kids, d), Checks(r, d);
    LeastIsMinimum(a, UINT_MAX);
    LeastIsMinimum(b, UINT_MAX);
    var j :| 0 <= j < |a| && a[j] == Least(a, UINT_MAX);
    var j' := if j <= i then j else j + 1;
    assert b[j'] == Check(r[j'], d);
  }

  lemma InsertChecks(parent: Tree, i: nat, c1: Tree, c2: Tree, d: Direction)
    requires parent.Node? && parent.dir == d && i < |parent.kids|
    requires Check(c1, d) + Check(c2, d) <= Check(parent.kids[i], d)
    requires Check(c1, Other(d)) == Check(c2, Other(d)) == Check(parent.kids[i], Other(d))
    ensures var r := parent.(kids := parent.kids[..i] + [c1, c2] + parent.kids[i + 1..]);
            forall e :: Check(r, e) <= Check(parent, e)
  {
    InsertCheckAlong(parent, i, c1, c2, d);
    InsertCheckAcross(parent, i, c1, c2, Other(d));
    var r := parent.(kids := parent.kids[..i] + [c1, c2] + parent.kids[i + 1..]);
    forall e ensures Check(r, e) <= Check(parent, e) {
      assert e == d || e == Other(d);
    }
  }

  lemma LeastPair(a: int, b: int)
    ensures Least([a, b], UINT_MAX) == Min(a, b)
  {
    assert [a, b][1..] == [b];
  }

  lemma PairFits(c1: Tree, c2: Tree, s: Tree, e: Direction)
    requires c1.Leaf? && c2.Leaf? && s.Node? && s.kids == [c1, c2]
    requires e == s.dir ==> Size(c1, e) + 1 + Size(c2, e) == Size(s, e)
    requires e != s.dir ==> Size(c1, e) == Size(c2, e) == Size(s, e)
    ensures Fits(s, e)
    ensures e == s.dir ==> Check(s, e) == Check(c1, e) + Check(c2, e)
    ensures e != s.dir ==> Check(s, e) == Check(c1, e)
  {
    assert Sizes(s.kids, e) == [Size(c1, e), Size(c2, e)];
    assert Checks(s.kids, e) == [Check(c1, e), Check(c2, e)];
    SumPair(Size(c1, e), Size(c2, e));
    SumPair(Check(c1, e), Check(c2, e));
    LeastPair(Check(c1, e), Check(c2, e));
  }

  lemma PairContainer(lc: Tree, d: Direction, hint: int, before: bool)
    requires lc.Leaf? && CanSplit(lc, d)
    ensures var (c1, c2) := Halves(lc, d, hint, before);
            var s := Node(d, lc.sx, lc.sy, lc.xoff, lc.yoff, [c1, c2]);
            Tiled(s) && Branching(s) && (Positive(lc) ==> Positive(s))
            && forall e :: Check(s, e) <= Check(lc, e)
  {
    var (c1, c2) := Halves(lc, d, hint, before);
    var s := Node(d, lc.sx, lc.sy, lc.xoff, lc.yoff, [c1, c2]);
    SplitSizes(lc, d, hint, before);
    PairFits(c1, c2, s, LeftRight);
    PairFits(c1, c2, s, TopBottom);
    forall e ensures Check(s, e) <= Check(lc, e) {
      assert e == LeftRight || e == TopBottom;
    }
  }

  lemma JoinContainer(t: Tree, p: Path, d: Direction, hint: int, before: bool)
    requires IsPath(t, p) && At(t, p).Leaf? && CanSplit(At(t, p), d) && Joins(t, p, d)
    requires Tiled(t) && Branching(t) && Positive(t)
    ensures IsPath(t, p[..|p| - 1])
    ensures var parent, s := At(t, p[..|p| - 1]), SplitContainer(t, p, d, hint, before);
            Tiled(s) && Branching(s) && Positive(s) && s.sx == parent.sx && s.sy == parent.sy
            && forall e :: Check(s, e) <= Check(parent, e)
  {
    hide Fits, Inhabited, IsPath, At, SecondSize;
    var lc := At(t, p);
    var (c1, c2) := Halves(lc, d, hint, before);
    AtKeeps(t, p);
    SplitSizes(lc, d, hint, before);
    PathPrefix(t, p, |p| - 1);
    AtKeeps(t, p[..|p| - 1]);
    var parent, i := At(t, p[..|p| - 1]), p[|p| - 1];
    assert SplitPoint(t, p, d) == p[..|p| - 1];
    InsertTiled(parent, i, c1, c2, d);
    InsertChecks(parent, i, c1, c2, d);
  }

  /** A split keeps the tree tiled and its root size, keeps every container at
      two children or more and every leaf at one cell or more, and never adds
      to the space a resize may take. */
  lemma SplitKeeps(t: Tree, p: Path, d: Direction, hint: int, before: bool)
    requires IsPath(t, p) && At(t, p).Leaf? && CanSplit(At(t, p), d)
    requires Tiled(t) && Branching(t) && Positive(t)
    ensures var r := SplitTree(t, p, d, hint, before).value.0;
            Tiled(r) && Branching(r) && Positive(r) && r.sx == t.sx && r.sy == t.sy
            && forall e :: Check(r, e) <= Check(t, e)
  {
    var point := SplitPoint(t, p, d);
    var s := SplitContainer(t, p, d, hint, before);
    if Joins(t, p, d) {
      JoinContainer(t, p, d, hint, before);
    } else {
      AtKeeps(t, p);
      PairContainer(At(t, p), d, hint, before);
    }
    ReplaceTiled(t, point, s);
    ReplaceBranching(t, point, s);
    forall e ensures Check(Replace(t, point, s), e) <= Check(t, e) {
      ReplaceCheck(t, point, s, e);
    }
  }

  // ----- Offsets after a split

  /** c1 and c2 divide k in place. */
  predicate Divides(k: Tree, c1: Tree, c2: Tree, d: Direction) {
    && c1.Leaf? && c2.Leaf?
    && Offset(c1, d) == Offset(k, d)
    && Offset(c2, d) == Offset(c1, d) + Size(c1, d) + 1
    && Offset(c1, Other(d)) == Offset(c2, Other(d)) == Offset(k, Other(d))
    && Size(c1, d) + 1 + Size(c2, d) == Size(k, d)
  }

  lemma {:induction false} RunDivide(
    left: seq<Tree>, k: Tree, right: seq<Tree>, dir: Direction, x: int, y: int, c1: Tree, c2: Tree)
    requires PlacedRun(left + ([k] + right), dir, x, y) && Divides(k, c1, c2, dir)
    ensures PlacedRun(left + ([c1] + ([c2] + right)), dir, x, y)
  {
    if left == [] {
      assert left + ([k] + right) == [k] + right;
      assert left + ([c1] + ([c2] + right)) == [c1] + ([c2] + right);
      PlacedRunCons(k, right, dir, x, y);
      PlacedRunCons(c2, right, dir, NextX(dir, x, c1), NextY(dir, y, c1));
      PlacedRunCons(c1, [c2] + right, dir, x, y);
    } else {
      var h := left[0];
      assert (left + ([k] + right))[1..] == left[1..] + ([k] + right);
      assert (left + ([c1] + ([c2] + right)))[1..] == left[1..] + ([c1] + ([c2] + right));
      RunDivide(left[1..], k, right, dir, NextX(dir, x, h), NextY(dir, y, h), c1, c2);
    }
  }

  lemma HalvesDivide(lc: Tree, d: Direction, hint: int, before: bool)
    requires lc.Leaf?
    ensures var (c1, c2) := Halves(lc, d, hint, before);
            Divides(lc, c1, c2, d)
  {}

  lemma JoinPlaced(parent: Tree, n: nat, c1: Tree, c2: Tree)
    requires parent.Node? && n < |parent.kids| && Placed(parent) && Divides(parent.kids[n], c1, c2, parent.dir)
    ensures Placed(parent.(kids := parent.kids[..n] + [c1, c2] + parent.kids[n + 1..]))
  {
    hide Put, PutAll, Divides, PlacedRun;
    var s := parent.(kids := parent.kids[..n] + [c1, c2] + parent.kids[n + 1..]);
    PlacedIff(parent);
    PlacedIff(s);
    var left, right := parent.kids[..n], parent.kids[n + 1..];
    assert parent.kids == left + ([parent.kids[n]] + right);
    RunDivide(left, parent.kids[n], right, parent.dir, parent.xoff, parent.yoff, c1, c2);
    assert s.kids == left + ([c1] + ([c2] + right));
  }

  lemma PairPlaced(s: Tree, c1: Tree, c2: Tree)
    requires s.Node? && s.kids == [c1, c2] && Divides(s, c1, c2, s.dir)
    ensures Placed(s)
  {
    PlacedIff(s);
    PlacedRunCons(c2, [], s.dir, NextX(s.dir, s.xoff, c1), NextY(s.dir, s.yoff, c1));
    PlacedRunCons(c1, [c2], s.dir, s.xoff, s.yoff);
    assert [c1] + [c2] == [c1, c2] && [c2] + [] == [c2];
  }

  lemma ContainerPlaced(t: Tree, p: Path, d: Direction, hint: int, before: bool)
    requires IsPath(t, p) && At(t, p).Leaf? && CanSplit(At(t, p), d) && Placed(t)
    ensures Placed(SplitContainer(t, p, d, hint, before))
  {
    hide IsPath, At, Put, PutAll, Halves, Placed;
    var point := SplitPoint(t, p, d);
    var (c1, c2) := Halves(At(t, p), d, hint, before);
    HalvesDivide(At(t, p), d, hint, before);
    AtPlaced(t, point);
    if Joins(t, p, d) {
      JoinPlaced(At(t, point), p[|p| - 1], c1, c2);
    } else {
      PairPlaced(SplitContainer(t, p, d, hint, before), c1, c2);
    }
  }

  /** A split leaves exactly the offsets layout_fix_offsets would compute. */
  lemma SplitPlaced(t: Tree, p: Path, d: Direction, hint: int, before: bool)
    requires IsPath(t, p) && At(t, p).Leaf? && CanSplit(At(t, p), d) && Placed(t)
    ensures Placed(SplitTree(t, p, d, hint, before).value.0)
    ensures var r := SplitTree(t, p, d, hint, before).value.0; r.xoff == t.xoff && r.yoff == t.yoff
  {
    ContainerPlaced(t, p, d, hint, before);
    ReplacePlaced(t, SplitPoint(t, p, d), SplitContainer(t, p, d, hint, before));
  }

  lemma AssignedContainer(t: Tree, p: Path, d: Direction, hint: int, before: bool, id: PaneId)
    returns (s: Tree, i: nat)
    requires IsPath(t, p) && At(t, p).Leaf? && CanSplit(At(t, p), d)
    ensures i == (if Joins(t, p, d) then p[|p| - 1] else 0) + (if before then 0 else 1)
    ensures var s0 := SplitContainer(t, p, d, hint, before);
            i < |s0.kids| && s0.kids[i].Leaf? && s == s0.(kids := s0.kids[i := s0.kids[i].(wp := Some(id))])
    ensures SplitAssign(t, p, d, hint, before, id) == Some(Replace(t, SplitPoint(t, p, d), s))
  {
    var point := SplitPoint(t, p, d);
    var s0 := SplitContainer(t, p, d, hint, before);
    var (r, q) := SplitTree(t, p, d, hint, before).value;
    i := q[|point|];
    NewCellPath(t, p, d, hint, before);
    NewCell(t, p, d, hint, before, i);
    PathPrefix(t, p, |point|);
    ReplaceAt(t, point, s0);
    s := s0.(kids := s0.kids[i := s0.kids[i].(wp := Some(id))]);
    assert q == point + [i] && [i][1..] == [];
    AtConcat(r, point, [i]);
    ReplaceConcat(r, point, [i], s0.kids[i].(wp := Some(id)));
    ReplaceTwice(t, point, s0, s);
  }

  lemma PairPanes(c1: Tree, c2: Tree)
    requires c1.Leaf? && c2.Leaf?
    ensures PanesAll([c1, c2]) == [c1.wp, c2.wp]
  {
    assert [c1, c2][1..] == [c2];
    assert PanesAll([c2]) == [c2.wp];
  }

  function NewPanes(wp: Option<PaneId>, before: bool, id: PaneId): seq<Option<PaneId>> {
    if before then [Some(id), wp] else [wp, Some(id)]
  }

  lemma ContainerPanes(t: Tree, p: Path, d: Direction, hint: int, before: bool, id: PaneId, s: Tree)
    returns (pre: seq<Option<PaneId>>, post: seq<Option<PaneId>>)
    requires IsPath(t, p) && At(t, p).Leaf? && CanSplit(At(t, p), d)
    requires var s0 := SplitContainer(t, p, d, hint, before);
             var i := (if Joins(t, p, d) then p[|p| - 1] else 0) + (if before then 0 else 1);
             i < |s0.kids| && s0.kids[i].Leaf? && s == s0.(kids := s0.kids[i := s0.kids[i].(wp := Some(id))])
    ensures Panes(At(t, SplitPoint(t, p, d))) == pre + [At(t, p).wp] + post
    ensures Panes(s) == pre + NewPanes(At(t, p).wp, before, id) + post
  {
    var (c1, c2) := Halves(At(t, p), d, hint, before);
    var c1', c2' := if before then c1.(wp := Some(id)) else c1, if before then c2 else c2.(wp := Some(id));
    if Joins(t, p, d) {
      var kids, j := At(t, SplitPoint(t, p, d)).kids, p[|p| - 1];
      assert s.kids == kids[..j] + [c1', c2'] + kids[j + 1..];
      JoinPanes(kids, j, c1', c2');
      pre, post := PanesAll(kids[..j]), PanesAll(kids[j + 1..]);
    } else {
      assert s.kids == [c1', c2'];
      PairPanes(c1', c2');
      pre, post := [], [];
    }
  }

  /** The panes in order: the new one comes right after the pane that was
      split, or right before it. */
  lemma SplitPanes(t: Tree, p: Path, d: Direction, hint: int, before: bool, id: PaneId)
    returns (pre: seq<Option<PaneId>>, post: seq<Option<PaneId>>)
    requires IsPath(t, p) && At(t, p).Leaf? && CanSplit(At(t, p), d)
    ensures Panes(t) == pre + [At(t, p).wp] + post
    ensures Panes(SplitAssign(t, p, d, hint, before, id).value) ==
            pre + NewPanes(At(t, p).wp, before, id) + post
  {
    var s, i := AssignedContainer(t, p, d, hint, before, id);
    var a, b := ContainerPanes(t, p, d, hint, before, id, s);
    var x, y := ReplacePanes(t, SplitPoint(t, p, d), s);
    Regroup(x, a, [At(t, p).wp], b, y);
    Regroup(x, a, NewPanes(At(t, p).wp, before, id), b, y);
    pre, post := x + a, b + y;
  }

  lemma JoinPanes(kids: seq<Tree>, j: nat, c1: Tree, c2: Tree)
    requires j < |kids| && kids[j].Leaf? && c1.Leaf? && c2.Leaf?
    ensures PanesAll(kids) == PanesAll(kids[..j]) + [kids[j].wp] + PanesAll(kids[j + 1..])
    ensures PanesAll(kids[..j] + [c1, c2] + kids[j + 1..])
            == PanesAll(kids[..j]) + [c1.wp, c2.wp] + PanesAll(kids[j + 1..])
  {
    PanesAllAt(kids, j);
    PairPanes(c1, c2);
    PanesAllConcat(kids[..j] + [c1, c2], kids[j + 1..]);
    PanesAllConcat(kids[..j], [c1, c2]);
  }
}
