// Cells of a layout tree by path from the root, and what replacing one cell
// does to the whole tree.
module LayoutPaths {
  import opened Common
  import opened LayoutTree
  import opened LayoutOffsets

  type Path = seq<nat>

  predicate IsPath(t: Tree, p: Path) {
    p == [] || (t.Node? && p[0] < |t.kids| && IsPath(t.kids[p[0]], p[1..]))
  }

  function At(t: Tree, p: Path): Tree
    requires IsPath(t, p)
  {
    if p == [] then t else At(t.kids[p[0]], p[1..])
  }

  function Replace(t: Tree, p: Path, s: Tree): Tree
    requires IsPath(t, p)
  {
    if p == [] then s
    else t.(kids := t.kids[p[0] := Replace(t.kids[p[0]], p[1..], s)])
  }

  /** Every container has at least two children. */
  predicate Branching(t: Tree) {
    t.Leaf? || (|t.kids| >= 2 && forall k | k in t.kids :: Branching(k))
  }

  /** The panes of the leaves, in order. */
  function Panes(t: Tree): seq<Option<PaneId>>
    decreases t, 1
  {
    match t
    case Leaf(_, _, _, _, wp) => [wp]
    case Node(_, _, _, _, _, kids) => PanesAll(kids)
  }

  function PanesAll(kids: seq<Tree>): seq<Option<PaneId>>
    decreases kids, 0
  {
    if kids == [] then [] else Panes(kids[0]) + PanesAll(kids[1..])
  }

  lemma {:induction false} PanesAllConcat(a: seq<Tree>, b: seq<Tree>)
    ensures PanesAll(a + b) == PanesAll(a) + PanesAll(b)
  {
    if a == [] {
      assert a + b == b;
    } else {
      assert (a + b)[1..] == a[1..] + b;
      PanesAllConcat(a[1..], b);
    }
  }

  lemma PanesAllAt(kids: seq<Tree>, i: nat)
    requires i < |kids|
    ensures PanesAll(kids) == PanesAll(kids[..i]) + Panes(kids[i]) + PanesAll(kids[i + 1..])
  {
    assert kids == kids[..i] + kids[i..];
    PanesAllConcat(kids[..i], kids[i..]);
  }

  lemma {:induction false} AtConcat(t: Tree, p: Path, q: Path)
    requires IsPath(t, p) && IsPath(At(t, p), q)
    ensures IsPath(t, p + q) && At(t, p + q) == At(At(t, p), q)
  {
    if p == [] {
      assert p + q == q;
    } else {
      assert (p + q)[1..] == p[1..] + q;
      AtConcat(t.kids[p[0]], p[1..], q);
    }
  }

  lemma {:induction false} PathSplit(t: Tree, a: Path, b: Path)
    requires IsPath(t, a + b)
    ensures IsPath(t, a) && IsPath(At(t, a), b) && At(At(t, a), b) == At(t, a + b)
  {
    if a == [] {
      assert a + b == b;
    } else {
      assert (a + b)[1..] == a[1..] + b;
      PathSplit(t.kids[a[0]], a[1..], b);
    }
  }

  lemma PathPrefix(t: Tree, p: Path, k: nat)
    requires IsPath(t, p) && k <= |p|
    ensures IsPath(t, p[..k]) && IsPath(At(t, p[..k]), p[k..])
    ensures At(At(t, p[..k]), p[k..]) == At(t, p)
    ensures k < |p| ==> At(t, p[..k]).Node? && p[k] < |At(t, p[..k]).kids|
  {
    assert p == p[..k] + p[k..];
    PathSplit(t, p[..k], p[k..]);
  }

  lemma {:induction false} ReplaceAt(t: Tree, p: Path, s: Tree)
    requires IsPath(t, p)
    ensures IsPath(Replace(t, p, s), p) && At(Replace(t, p, s), p) == s
  {
    if p != [] { ReplaceAt(t.kids[p[0]], p[1..], s); }
  }

  lemma {:induction false} ReplaceSelf(t: Tree, p: Path)
    requires IsPath(t, p)
    ensures Replace(t, p, At(t, p)) == t
  {
    if p != [] { ReplaceSelf(t.kids[p[0]], p[1..]); }
  }

  lemma {:induction false} ReplaceTwice(t: Tree, p: Path, s: Tree, u: Tree)
    requires IsPath(t, p)
    ensures IsPath(Replace(t, p, s), p)
    ensures Replace(Replace(t, p, s), p, u) == Replace(t, p, u)
  {
    ReplaceAt(t, p, s);
    if p != [] { ReplaceTwice(t.kids[p[0]], p[1..], s, u); }
  }

  lemma {:induction false} ReplaceConcat(t: Tree, p: Path, q: Path, s: Tree)
    requires IsPath(t, p) && IsPath(At(t, p), q)
    ensures IsPath(t, p + q)
    ensures Replace(t, p + q, s) == Replace(t, p, Replace(At(t, p), q, s))
  {
    if p == [] {
      assert p + q == q;
    } else {
      assert (p + q)[1..] == p[1..] + q;
      ReplaceConcat(t.kids[p[0]], p[1..], q, s);
    }
  }

  // ----- Properties of subtrees

  lemma {:induction false} AtKeeps(t: Tree, p: Path)
    requires IsPath(t, p)
    ensures Tiled(t) ==> Tiled(At(t, p))
    ensures Branching(t) ==> Branching(At(t, p))
    ensures Positive(t) ==> Positive(At(t, p))
  {
    if p != [] {
      assert t.kids[p[0]] in t.kids;
      AtKeeps(t.kids[p[0]], p[1..]);
    }
  }

  /** A cell may be swapped for any tiled tree of its own size. */
  lemma {:induction false} ReplaceTiled(t: Tree, p: Path, s: Tree)
    requires IsPath(t, p) && Tiled(t) && Tiled(s)
    requires s.sx == At(t, p).sx && s.sy == At(t, p).sy
    ensures var r := Replace(t, p, s);
            Tiled(r) && r.sx == t.sx && r.sy == t.sy
  {
    if p != [] {
      var i := p[0];
      var k := Replace(t.kids[i], p[1..], s);
      ReplaceTiled(t.kids[i], p[1..], s);
      var r := Replace(t, p, s);
      forall j | 0 <= j < |r.kids|
        ensures Tiled(r.kids[j]) && r.kids[j].sx == t.kids[j].sx && r.kids[j].sy == t.kids[j].sy
      {
        assert t.kids[j] in t.kids;
      }
      SameSizes(t, r, LeftRight);
      SameSizes(t, r, TopBottom);
    }
  }

  lemma SameSizes(t: Tree, r: Tree, d: Direction)
    requires t.Node? && r.Node? && r.dir == t.dir && Size(r, d) == Size(t, d) && Fits(t, d)
    requires |r.kids| == |t.kids|
    requires forall j :: 0 <= j < |r.kids| ==> Fits(r.kids[j], d) && Size(r.kids[j], d) == Size(t.kids[j], d)
    ensures Fits(r, d)
  {
    assert Sizes(r.kids, d) == Sizes(t.kids, d);
  }

  lemma {:induction false} ReplaceBranching(t: Tree, p: Path, s: Tree)
    requires IsPath(t, p)
    ensures Branching(t) && Branching(s) ==> Branching(Replace(t, p, s))
    ensures Positive(t) && Positive(s) ==> Positive(Replace(t, p, s))
  {
    if p != [] { ReplaceBranching(t.kids[p[0]], p[1..], s); }
  }

  lemma {:induction false} ReplaceCheck(t: Tree, p: Path, s: Tree, d: Direction)
    requires IsPath(t, p) && Inhabited(t) && Check(s, d) <= Check(At(t, p), d)
    ensures Check(Replace(t, p, s), d) <= Check(t, d)
  {
    if p != [] {
      var i := p[0];
      var k := Replace(t.kids[i], p[1..], s);
      ReplaceCheck(t.kids[i], p[1..], s, d);
      var a, b := Checks(t.kids, d), Checks(t.kids[i := k], d);
      assert b == a[i := Check(k, d)];
      if t.dir == d {
        SumUpdate(a, i, Check(k, d));
      } else {
        LeastIsMinimum(a, UINT_MAX);
        LeastIsMinimum(b, UINT_MAX);
        var j :| 0 <= j < |a| && a[j] == Least(a, UINT_MAX);
        assert b[j] <= a[j];
      }
    }
  }

  lemma PanesAllUpdate(kids: seq<Tree>, i: nat, k: Tree)
    requires i < |kids|
    ensures PanesAll(kids) == PanesAll(kids[..i]) + Panes(kids[i]) + PanesAll(kids[i + 1..])
    ensures PanesAll(kids[i := k]) == PanesAll(kids[..i]) + Panes(k) + PanesAll(kids[i + 1..])
  {
    PanesAllAt(kids, i);
    PanesAllAt(kids[i := k], i);
    assert kids[i := k][..i] == kids[..i] && kids[i := k][i + 1..] == kids[i + 1..];
  }

  lemma Regroup<T>(a: seq<T>, b: seq<T>, c: seq<T>, d: seq<T>, e: seq<T>)
    ensures a + (b + c + d) + e == (a + b) + c + (d + e)
  {}

  /** The panes before and after a cell are untouched when it is replaced. */
  lemma {:induction false} ReplacePanes(t: Tree, p: Path, s: Tree)
    returns (pre: seq<Option<PaneId>>, post: seq<Option<PaneId>>)
    requires IsPath(t, p)
    ensures Panes(t) == pre + Panes(At(t, p)) + post
    ensures Panes(Replace(t, p, s)) == pre + Panes(s) + post
  {
    if p == [] {
      pre, post := [], [];
    } else {
      var i := p[0];
      var k := Replace(t.kids[i], p[1..], s);
      var a, b := ReplacePanes(t.kids[i], p[1..], s);
      pre, post := PanesAll(t.kids[..i]) + a, b + PanesAll(t.kids[i + 1..]);
      PanesAllUpdate(t.kids, i, k);
      Regroup(PanesAll(t.kids[..i]), a, Panes(At(t, p)), b, PanesAll(t.kids[i + 1..]));
      Regroup(PanesAll(t.kids[..i]), a, Panes(s), b, PanesAll(t.kids[i + 1..]));
    }
  }

  // ----- Placing keeps everything but offsets

  lemma {:induction false} PutKeeps(t: Tree, x: int, y: int)
    ensures var r := Put(t, x, y);
            (Inhabited(t) ==> Inhabited(r)) && (Branching(t) ==> Branching(r))
            && (Positive(t) ==> Positive(r))
    decreases t, 1
  {
    if t.Node? { PutAllKeeps(t.kids, t.dir, x, y); }
  }

  lemma {:induction false} PutAllKeeps(kids: seq<Tree>, dir: Direction, x: int, y: int)
    ensures var r := PutAll(kids, dir, x, y);
            forall i :: 0 <= i < |r| ==>
              (Inhabited(kids[i]) ==> Inhabited(r[i])) && (Branching(kids[i]) ==> Branching(r[i]))
              && (Positive(kids[i]) ==> Positive(r[i]))
    decreases kids, 0
  {
    if kids != [] {
      PutKeeps(kids[0], x, y);
      var x', y' := NextX(dir, x, kids[0]), NextY(dir, y, kids[0]);
      PutAllKeeps(kids[1..], dir, x', y');
      var r := PutAll(kids, dir, x, y);
      assert r[1..] == PutAll(kids[1..], dir, x', y');
      forall i | 0 < i < |r| ensures r[i] == r[1..][i - 1] && kids[i] == kids[1..][i - 1] {}
    }
  }

  lemma {:induction false} PutFits(t: Tree, x: int, y: int, d: Direction)
    ensures Fits(t, d) ==> Fits(Put(t, x, y), d)
    ensures Check(Put(t, x, y), d) == Check(t, d)
    decreases t, 1
  {
    if t.Node? {
      PutAllFits(t.kids, t.dir, x, y, d);
      var r := Put(t, x, y);
      assert Sizes(r.kids, d) == Sizes(t.kids, d);
      assert Checks(r.kids, d) == Checks(t.kids, d);
    }
  }

  lemma {:induction false} PutAllFits(kids: seq<Tree>, dir: Direction, x: int, y: int, d: Direction)
    ensures var r := PutAll(kids, dir, x, y);
            forall i :: 0 <= i < |r| ==>
              (Fits(kids[i], d) ==> Fits(r[i], d)) && Check(r[i], d) == Check(kids[i], d)
    decreases kids, 0
  {
    if kids != [] {
      PutFits(kids[0], x, y, d);
      var x', y' := NextX(dir, x, kids[0]), NextY(dir, y, kids[0]);
      PutAllFits(kids[1..], dir, x', y', d);
      var r := PutAll(kids, dir, x, y);
      assert r[1..] == PutAll(kids[1..], dir, x', y');
      forall i | 0 < i < |r| ensures r[i] == r[1..][i - 1] && kids[i] == kids[1..][i - 1] {}
    }
  }

  lemma {:induction false} PutPanes(t: Tree, x: int, y: int)
    ensures Panes(Put(t, x, y)) == Panes(t)
    decreases t, 1
  {
    if t.Node? { PutAllPanes(t.kids, t.dir, x, y); }
  }

  lemma {:induction false} PutAllPanes(kids: seq<Tree>, dir: Direction, x: int, y: int)
    ensures PanesAll(PutAll(kids, dir, x, y)) == PanesAll(kids)
    decreases kids, 0
  {
    if kids != [] {
      PutPanes(kids[0], x, y);
      var x', y' := NextX(dir, x, kids[0]), NextY(dir, y, kids[0]);
      PutAllPanes(kids[1..], dir, x', y');
      assert PutAll(kids, dir, x, y)[1..] == PutAll(kids[1..], dir, x', y');
    }
  }

  lemma {:induction false} PutTwice(t: Tree, a: int, b: int, x: int, y: int)
    ensures Put(Put(t, a, b), x, y) == Put(t, x, y)
    decreases t, 1
  {
    if t.Node? { PutAllTwice(t.kids, t.dir, a, b, x, y); }
  }

  lemma {:induction false} PutAllTwice(kids: seq<Tree>, dir: Direction, a: int, b: int, x: int, y: int)
    ensures PutAll(PutAll(kids, dir, a, b), dir, x, y) == PutAll(kids, dir, x, y)
    decreases kids, 0
  {
    if kids != [] {
      PutTwice(kids[0], a, b, x, y);
      var a', b' := NextX(dir, a, kids[0]), NextY(dir, b, kids[0]);
      var x', y' := NextX(dir, x, kids[0]), NextY(dir, y, kids[0]);
      PutAllTwice(kids[1..], dir, a', b', x', y');
      assert PutAll(kids, dir, a, b)[1..] == PutAll(kids[1..], dir, a', b');
    }
  }

  // ----- Cells of a placed tree

  lemma {:induction false} PutAllAt(kids: seq<Tree>, dir: Direction, x: int, y: int, i: nat) returns (a: int, b: int)
    requires i < |kids|
    ensures PutAll(kids, dir, x, y)[i] == Put(kids[i], a, b)
  {
    if i == 0 {
      a, b := x, y;
    } else {
      a, b := PutAllAt(kids[1..], dir, NextX(dir, x, kids[0]), NextY(dir, y, kids[0]), i - 1);
      assert PutAll(kids, dir, x, y)[1..] == PutAll(kids[1..], dir, NextX(dir, x, kids[0]), NextY(dir, y, kids[0]));
    }
  }

  lemma {:induction false} PutAt(t: Tree, p: Path, x: int, y: int) returns (a: int, b: int)
    requires IsPath(t, p)
    ensures IsPath(Put(t, x, y), p) && At(Put(t, x, y), p) == Put(At(t, p), a, b)
  {
    if p == [] {
      a, b := x, y;
    } else {
      var c, e := PutAllAt(t.kids, t.dir, x, y, p[0]);
      a, b := PutAt(t.kids[p[0]], p[1..], c, e);
    }
  }

  /** Cells not inside the one replaced keep their sizes. */
  lemma {:induction false} ReplaceElsewhere(t: Tree, p: Path, s: Tree, m: Path)
    requires IsPath(t, p) && IsPath(t, m) && !(p < m) && s.sx == At(t, p).sx && s.sy == At(t, p).sy
    ensures var r := Replace(t, p, s);
            IsPath(r, m) && At(r, m).sx == At(t, m).sx && At(r, m).sy == At(t, m).sy
  {
    if p != [] && m != [] {
      if m[0] == p[0] {
        assert p[1..] < m[1..] ==> p < m;
        ReplaceElsewhere(t.kids[p[0]], p[1..], s, m[1..]);
      }
    } else if p == [] {
      assert p < m || m == [];
    }
  }
}
