// Closing a pane in a window too small for its layout: which closes leave the
// layout as small as it can be, so that it fits the window again later.
module LayoutSqueeze {
  import opened Common
  import opened LayoutTree
  import opened LayoutAdjust
  import opened LayoutOffsets
  import opened LayoutPaths
  import opened LayoutClose
  import opened LayoutWindow
  import LayoutPlaced
  import R = LayoutResizePane

  lemma CheckZero(t: Tree, d: Direction)
    requires t.Node? && t.kids != []
    ensures t.dir == d ==> (Check(t, d) == 0 <==> forall j :: 0 <= j < |t.kids| ==> Check(t.kids[j], d) == 0)
    ensures t.dir != d ==> (Check(t, d) == 0 <==> exists j :: 0 <= j < |t.kids| && Check(t.kids[j], d) == 0)
  {
    var s := Checks(t.kids, d);
    if t.dir == d {
      SumNonNegative(s);
      if forall j :: 0 <= j < |t.kids| ==> Check(t.kids[j], d) == 0 { R.ZeroSum(s); }
    } else {
      LeastIsMinimum(s, UINT_MAX);
      if Check(t, d) == 0 {
        var j :| 0 <= j < |s| && s[j] == 0;
        assert Check(t.kids[j], d) == 0;
      }
    }
  }

  // ----- Which cells stay full when they grow

  /** No space is left after s single units: they all go to the first child
      along d, to every child across d. */
  predicate FullAfterUnits(t: Tree, d: Direction, s: nat)
    decreases t, 1
  {
    match t
    case Leaf(_, _, _, _, _) => Size(t, d) + s <= PANE_MINIMUM
    case Node(dir, _, _, _, _, kids) =>
      if dir == d then forall j :: 0 <= j < |kids| ==> FullAfterUnits(kids[j], d, if j == 0 then s else 0)
      else exists j :: 0 <= j < |kids| && FullAfterUnits(kids[j], d, s)
  }

  /** What child j of m gets of n units handed out one by one. */
  function Share(n: nat, m: nat, j: nat): nat
    requires m > 0
  {
    n / m + if j < n % m then 1 else 0
  }

  /** No space is left after growing by n at once: the children along d get
      single units in turn. */
  predicate FullAfter(t: Tree, d: Direction, n: nat) {
    match t
    case Leaf(_, _, _, _, _) => Size(t, d) + n <= PANE_MINIMUM
    case Node(dir, _, _, _, _, kids) =>
      if dir == d then forall j :: 0 <= j < |kids| ==> FullAfterUnits(kids[j], d, Share(n, |kids|, j))
      else exists j :: 0 <= j < |kids| && FullAfter(kids[j], d, n)
  }

  lemma {:induction false} FullNow(t: Tree, d: Direction)
    requires Inhabited(t)
    ensures FullAfterUnits(t, d, 0) <==> Check(t, d) == 0
  {
    if t.Node? {
      forall j | 0 <= j < |t.kids| ensures FullAfterUnits(t.kids[j], d, 0) <==> Check(t.kids[j], d) == 0 {
        FullNow(t.kids[j], d);
      }
      CheckZero(t, d);
    }
  }

  lemma {:induction false} OneUnit(t: Tree, d: Direction, s: nat)
    requires Inhabited(t)
    ensures FullAfterUnits(Bump(t, d), d, s) <==> FullAfterUnits(t, d, s + 1)
  {
    if t.Node? {
      if t.dir == d {
        OneUnit(t.kids[0], d, s);
        var r := Bump(t, d).kids;
        forall j | 0 <= j < |r|
          ensures FullAfterUnits(r[j], d, if j == 0 then s else 0)
                  <==> FullAfterUnits(t.kids[j], d, if j == 0 then s + 1 else 0)
        {}
      } else {
        var r := Bump(t, d).kids;
        forall j | 0 <= j < |r| ensures FullAfterUnits(r[j], d, s) <==> FullAfterUnits(t.kids[j], d, s + 1) {
          OneUnit(t.kids[j], d, s);
        }
      }
    }
  }

  /** u is t after g single units, as far as being full is concerned. */
  ghost predicate Ahead(t: Tree, u: Tree, d: Direction, g: int) {
    g >= 0 && forall s: nat :: FullAfterUnits(u, d, s) <==> FullAfterUnits(t, d, s + g)
  }

  lemma AheadOne(t: Tree, u: Tree, d: Direction, g: int)
    requires Inhabited(u) && Ahead(t, u, d, g)
    ensures Ahead(t, Bump(u, d), d, g + 1)
  {
    hide FullAfterUnits, Bump;
    forall s: nat ensures FullAfterUnits(Bump(u, d), d, s) <==> FullAfterUnits(t, d, s + (g + 1)) {
      OneUnit(u, d, s);
      assert FullAfterUnits(u, d, s + 1) <==> FullAfterUnits(t, d, s + 1 + g);
    }
  }

  /** Round b is under way: children before i have had b + 1 units, the others b. */
  ghost predicate AheadTo(kids: seq<Tree>, r: seq<Tree>, d: Direction, b: int, i: nat) {
    |r| == |kids| && forall k :: 0 <= k < |kids| ==> Ahead(kids[k], r[k], d, if k < i then b + 1 else b)
  }

  lemma {:induction false} FullRounds(
    orig: seq<Tree>, kids: seq<Tree>, d: Direction, change: nat, i: nat, b: nat)
    returns (b': nat, i': nat)
    requires AllInhabited(kids) && kids != [] && i <= |kids|
    requires AheadTo(orig, kids, d, b, i)
    ensures Sum(Checks(kids, d)) >= 0
    ensures AheadTo(orig, RoundRobin(kids, d, change, i), d, b', i') && i' <= |kids|
    ensures b' * |kids| + i' == b * |kids| + i + change
    decreases change, if i < |kids| then 0 else 1
  {
    hide Bump, Inhabited, Check, Ahead;
    SumNonNegative(Checks(kids, d));
    if change == 0 {
      b', i' := b, i;
    } else if i == |kids| {
      b', i' := FullRounds(orig, kids, d, change, 0, b + 1);
    } else {
      UnitSizes(kids[i], d);
      AheadOne(orig[i], kids[i], d, b);
      b', i' := FullRounds(orig, kids[i := Bump(kids[i], d)], d, change - 1, i + 1, b);
    }
  }

  lemma Shares(n: nat, m: nat, b: nat, i: nat, j: nat)
    requires j < m && i <= m && b * m + i == n
    ensures Share(n, m, j) == if j < i then b + 1 else b
  {
    if i == m {
      assert n == (b + 1) * m;
      Quotient(n, m, b + 1, 0);
    } else {
      Quotient(n, m, b, i);
    }
  }

  lemma Quotient(n: nat, m: nat, q: nat, r: nat)
    requires r < m && n == q * m + r
    ensures n / m == q && n % m == r
  {
    var e := n / m - q;
    assert n == n / m * m + n % m;
    assert e * m == n / m * m - q * m;
    assert e * m == r - n % m;
    Times(e, m);
  }

  lemma Times(e: int, m: nat)
    ensures e >= 1 ==> e * m >= m
    ensures e <= -1 ==> e * m + m <= 0
  {}

  lemma FullAlong(t: Tree, d: Direction, n: nat)
    requires Inhabited(t) && t.Node? && t.dir == d
    ensures n >= -Check(t, d)
    ensures Check(Adjust(t, d, n), d) == 0 <==> FullAfter(t, d, n)
  {
    hide FullAfterUnits, Check, Inhabited;
    InhabitedKids(t);
    SumNonNegative(Checks(t.kids, d));
    var b, i := FullRounds(t.kids, t.kids, d, n, 0, 0);
    AdjustAdjusts(t, d, n);
    var r := Adjust(t, d, n);
    InhabitedKids(r);
    CheckZero(r, d);
    forall j | 0 <= j < |r.kids|
      ensures Check(r.kids[j], d) == 0 <==> FullAfterUnits(t.kids[j], d, Share(n, |t.kids|, j))
    {
      Shares(n, |t.kids|, b, i, j);
      FullNow(r.kids[j], d);
    }
  }

  /** A cell that grows by n has no space left afterwards if and only if its
      sizes before say so. */
  lemma {:induction false} GrownFullIff(t: Tree, d: Direction, n: nat)
    requires Inhabited(t)
    ensures n >= -Check(t, d)
    ensures Check(Adjust(t, d, n), d) == 0 <==> FullAfter(t, d, n)
  {
    if t.Node? {
      if t.dir == d {
        FullAlong(t, d, n);
      } else {
        var r := Adjust(t, d, n);
        CheckZero(r, d);
        forall j | 0 <= j < |t.kids|
          ensures n >= -Check(t.kids[j], d) && (Check(Adjust(t.kids[j], d, n), d) == 0 <==> FullAfter(t.kids[j], d, n))
        {
          GrownFullIff(t.kids[j], d, n);
        }
        assert forall j :: 0 <= j < |t.kids| ==> r.kids[j] == Adjust(t.kids[j], d, n);
      }
    }
  }

  // ----- The closed leaf and its containers

  predicate OthersFull(kids: seq<Tree>, d: Direction, i: nat, h: nat) {
    forall j :: 0 <= j < |kids| && j != i && j != h ==> Check(kids[j], d) == 0
  }

  predicate AnotherFull(kids: seq<Tree>, d: Direction, i: nat) {
    exists j :: 0 <= j < |kids| && j != i && Check(kids[j], d) == 0
  }

  lemma CanCloseBelow(t: Tree, p: Path)
    requires CanClose(t, p) && |p| > 1
    ensures t.Node? && p[0] < |t.kids| && CanClose(t.kids[p[0]], p[1..])
  {
    assert t.kids[p[0]] in t.kids;
  }

  lemma CanCloseHere(t: Tree, p: Path)
    requires CanClose(t, p) && |p| == 1
    ensures Closable(t, p[0]) && At(t, p) == t.kids[p[0]]
  {
    assert p[1..] == [] && t.kids[p[0]] in t.kids;
    PositiveSize(t.kids[p[0]], t.dir);
  }

  /** The sizes before the leaf at p is closed for which no space is left along d
      afterwards. Going up from it: in its own container the neighbour that
      grows stays full and the others are full, or across d another child is
      full; above that, along d all other children are full, across d another
      one is or the part with the leaf is left so. */
  predicate StaysMinimal(t: Tree, p: Path, d: Direction)
    requires CanClose(t, p)
    decreases |p|
  {
    var i := p[0];
    if |p| == 1 then
      CanCloseHere(t, p);
      ClosableFacts(t, i);
      if t.dir == d
      then OthersFull(t.kids, d, i, Heir(i)) && FullAfter(t.kids[Heir(i)], d, Size(t.kids[i], d) + 1)
      else AnotherFull(t.kids, d, i)
    else
      CanCloseBelow(t, p);
      if t.dir == d
      then OthersFull(t.kids, d, i, i) && StaysMinimal(t.kids[i], p[1..], d)
      else AnotherFull(t.kids, d, i) || StaysMinimal(t.kids[i], p[1..], d)
  }

  /** The children after a close, in terms of those before. */
  lemma KidsLeft(t: Tree, i: nat, k: Tree)
    requires Closable(t, i)
    requires var h, d := Heir(i), t.dir;
             && h < |t.kids| && Inhabited(t.kids[h]) && Size(t.kids[i], d) + 1 >= -Check(t.kids[h], d)
             && k == Adjust(t.kids[h], d, Size(t.kids[i], d) + 1)
    ensures var now := KidsAfterClose(t, i);
            && |now| == |t.kids| - 1 >= 1
            && (forall j :: 0 <= j < |t.kids| && j != i ==>
                  now[if j < i then j else j - 1] == if j == Heir(i) then k else t.kids[j])
            && forall m :: 0 <= m < |now| ==> now[m] == t.kids[Heir(i) := k][if m < i then m else m + 1]
    ensures AfterClose(t, i) == if |t.kids| == 2 then k else t.(kids := KidsAfterClose(t, i))
  {
    hide Adjust, Check, Tiled, Positive;
    ClosableFacts(t, i);
  }

  lemma AlongCheck(t: Tree, i: nat, k: Tree, now: seq<Tree>)
    requires t.Node? && i < |t.kids| && Heir(i) < |t.kids| && |now| == |t.kids| - 1 >= 1
    requires forall j :: 0 <= j < |t.kids| && j != i ==>
               now[if j < i then j else j - 1] == if j == Heir(i) then k else t.kids[j]
    requires forall m :: 0 <= m < |now| ==> now[m] == t.kids[Heir(i) := k][if m < i then m else m + 1]
    ensures (forall m :: 0 <= m < |now| ==> Check(now[m], t.dir) == 0)
            <==> OthersFull(t.kids, t.dir, i, Heir(i)) && Check(k, t.dir) == 0
  {
    hide Check;
    var d := t.dir;
    if forall m :: 0 <= m < |now| ==> Check(now[m], d) == 0 {
      forall j | 0 <= j < |t.kids| && j != i
        ensures Check(if j == Heir(i) then k else t.kids[j], d) == 0
      {
        assert Check(now[if j < i then j else j - 1], d) == 0;
      }
      var h := Heir(i);
      assert now[if h < i then h else h - 1] == k;
    }
  }

  lemma AcrossCheck(t: Tree, i: nat, k: Tree, now: seq<Tree>, d: Direction)
    requires t.Node? && i < |t.kids| && Heir(i) < |t.kids| && |now| == |t.kids| - 1 >= 1
    requires Check(k, d) == Check(t.kids[Heir(i)], d)
    requires forall j :: 0 <= j < |t.kids| && j != i ==>
               now[if j < i then j else j - 1] == if j == Heir(i) then k else t.kids[j]
    requires forall m :: 0 <= m < |now| ==> now[m] == t.kids[Heir(i) := k][if m < i then m else m + 1]
    ensures (exists m :: 0 <= m < |now| && Check(now[m], d) == 0) <==> AnotherFull(t.kids, d, i)
  {
    hide Check;
    if AnotherFull(t.kids, d, i) {
      var j :| 0 <= j < |t.kids| && j != i && Check(t.kids[j], d) == 0;
      assert Check(now[if j < i then j else j - 1], d) == 0;
    }
    if exists m :: 0 <= m < |now| && Check(now[m], d) == 0 {
      var m :| 0 <= m < |now| && Check(now[m], d) == 0;
      var j := if m < i then m else m + 1;
      assert Check(t.kids[j], d) == 0;
    }
  }

  /** The container a leaf is closed in. */
  lemma {:induction false} AfterCloseCheck(t: Tree, i: nat, d: Direction)
    requires Closable(t, i) && t.kids[i].Leaf?
    ensures CanClose(t, [i])
    ensures Check(AfterClose(t, i), d) == 0 <==> StaysMinimal(t, [i], d)
  {
    hide Tiled, Positive, Branching, Adjust, Check, KidsAfterClose, AfterClose, OthersFull, AnotherFull, FullAfter;
    assert IsPath(t, [i]) && At(t, [i]) == t.kids[i] by { assert [i][1..] == [] && IsPath(t.kids[i], []); }
    ClosableFacts(t, i);
    HeirAcross(t, i);
    GrownFullIff(t.kids[Heir(i)], t.dir, Size(t.kids[i], t.dir) + 1);
    var k := Adjust(t.kids[Heir(i)], t.dir, Size(t.kids[i], t.dir) + 1);
    var now, r := KidsAfterClose(t, i), AfterClose(t, i);
    KidsLeft(t, i, k);
    if |t.kids| == 2 { assert now == [k]; } else { CheckZero(r, d); }
    if d == t.dir { AlongCheck(t, i, k, now); } else { AcrossCheck(t, i, k, now, d); }
  }

  lemma HeirAcross(t: Tree, i: nat)
    requires Closable(t, i)
    ensures var h, d := Heir(i), t.dir;
            && h < |t.kids| && h != i && Inhabited(t.kids[h]) && Size(t.kids[i], d) + 1 >= -Check(t.kids[h], d)
            && Check(Adjust(t.kids[h], d, Size(t.kids[i], d) + 1), Other(d)) == Check(t.kids[h], Other(d))
  {
    hide Fits, Positive, Branching, Adjust, Check;
    ClosableFacts(t, i);
    KidSound(t, t.kids[Heir(i)]);
    AdjustFacts(t.kids[Heir(i)], t.dir, Size(t.kids[i], t.dir) + 1);
  }

  lemma {:induction false} DestroyCheck(t: Tree, p: Path, d: Direction)
    requires CanClose(t, p)
    ensures IsPath(t, p[..|p| - 1]) && Closable(At(t, p[..|p| - 1]), p[|p| - 1])
    ensures Check(Replace(t, p[..|p| - 1], AfterClose(At(t, p[..|p| - 1]), p[|p| - 1])), d) == 0 <==> StaysMinimal(t, p, d)
    decreases |p|
  {
    hide Sound, Check, AfterClose;
    if |p| == 1 {
      CanCloseHere(t, p);
      AfterCloseCheck(t, p[0], d);
      assert p == [p[0]];
    } else {
      CanCloseBelow(t, p);
      var i, q := p[0], p[1..];
      DestroyCheck(t.kids[i], q, d);
      assert p[..|p| - 1][1..] == q[..|q| - 1];
      var k := Replace(t.kids[i], q[..|q| - 1], AfterClose(At(t.kids[i], q[..|q| - 1]), q[|q| - 1]));
      ReplacedCheck(t, i, k, d);
    }
  }

  lemma ReplacedCheck(t: Tree, i: nat, k: Tree, d: Direction)
    requires t.Node? && i < |t.kids|
    ensures Check(t.(kids := t.kids[i := k]), d) == 0 <==>
            if t.dir == d then OthersFull(t.kids, d, i, i) && Check(k, d) == 0
            else AnotherFull(t.kids, d, i) || Check(k, d) == 0
  {
    hide Check;
    CheckZero(t.(kids := t.kids[i := k]), d);
    var r := t.kids[i := k];
    assert forall j :: 0 <= j < |r| ==> r[j] == if j == i then k else t.kids[j];
    assert r[i] == k;
  }

  /** A close in a window whose layout is exact or minimal keeps it so if and
      only if, on each axis where the layout is larger than the window, it
      leaves it minimal. All other closes lose the fit. */
  lemma CloseKeepsExactIff(w: Window, p: Path)
    requires Invariant(w) && Enabled(w, Close(p)) && Exact(w)
    ensures CanClose(w.root, p)
    ensures Exact(Step(w, Close(p))) <==>
            forall d :: Size(w.root, d) == Extent(w, d) || StaysMinimal(w.root, p, d)
  {
    hide Sound, Check, StaysMinimal, Put, AfterClose, OneLeafPerPane, LayoutPlaced.Placed;
    CloseKeeps(w.root, p);
    forall d ensures Check(CloseTree(w.root, p), d) == 0 <==> StaysMinimal(w.root, p, d) {
      CloseCheck(w.root, p, d);
    }
    var v := Step(w, Close(p));
    assert forall d :: Size(v.root, d) == Size(w.root, d) && Extent(v, d) == Extent(w, d);
  }

  /** A leaf that takes over the space of another has some to spare, so in a
      root larger than the window along its direction a close next to a leaf
      always loses the fit. */
  lemma LeafHeirLoses(w: Window, i: nat)
    requires Invariant(w) && Enabled(w, Close([i])) && Exact(w)
    requires var d := w.root.dir; Size(w.root, d) != Extent(w, d)
    requires Heir(i) < |w.root.kids| && w.root.kids[Heir(i)].Leaf?
    ensures !Exact(Step(w, Close([i])))
  {
    hide Step, Exact, OneLeafPerPane, LayoutPlaced.Placed, Fits, Check, Branching;
    CloseKeepsExactIff(w, [i]);
    CanCloseHere(w.root, [i]);
    var d, h := w.root.dir, w.root.kids[Heir(i)];
    assert h in w.root.kids;
    PositiveSize(h, d);
  }

  lemma CloseCheck(t: Tree, p: Path, d: Direction)
    requires CanClose(t, p)
    ensures Check(CloseTree(t, p), d) == 0 <==> StaysMinimal(t, p, d)
  {
    hide Check, StaysMinimal, Put, AfterClose;
    DestroyCheck(t, p, d);
    var u := DestroyTree(t, p);
    PutFits(u, u.xoff, u.yoff, d);
    MovedCheck(AfterClose(At(t, p[..|p| - 1]), p[|p| - 1]), d);
  }

  lemma MovedCheck(t: Tree, d: Direction)
    ensures Check(Moved(t, 0, 0), d) == Check(t, d)
  {}
}
