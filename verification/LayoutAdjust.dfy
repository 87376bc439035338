// layout_resize_adjust: taking space out of a cell, or adding it, one unit at
// a time round the children that run in the same direction.
module LayoutAdjust {
  import opened Common
  import opened LayoutTree

  // ----- One unit

  /** Adds one unit: all children across d, the first child along d. */
  function Bump(t: Tree, d: Direction): Tree
    requires Inhabited(t)
  {
    match t
    case Leaf(_, _, _, _, _) => SetSize(t, d, Size(t, d) + 1)
    case Node(dir, _, _, _, _, kids) =>
      if dir == d
      then Refit(t, d, Size(t, d) + 1, kids[0 := Bump(kids[0], d)])
      else Refit(t, d, Size(t, d) + 1, seq(|kids|, i requires 0 <= i < |kids| => Bump(kids[i], d)))
  }

  /** The first child with space left along d. */
  function FirstWithSpace(kids: seq<Tree>, d: Direction): (j: nat)
    requires exists i :: 0 <= i < |kids| && Check(kids[i], d) > 0
    ensures j < |kids| && Check(kids[j], d) > 0
    ensures forall i :: 0 <= i < j ==> Check(kids[i], d) == 0
  {
    if Check(kids[0], d) > 0 then 0
    else
      assert exists i :: 0 <= i < |kids[1..]| && Check(kids[1..][i], d) > 0 by {
        var i :| 0 <= i < |kids| && Check(kids[i], d) > 0;
        assert kids[1..][i - 1] == kids[i];
      }
      var j := FirstWithSpace(kids[1..], d);
      assert forall i :: 1 <= i < 1 + j ==> kids[i] == kids[1..][i - 1];
      1 + j
  }

  lemma {:induction false} SomeSpace(kids: seq<Tree>, d: Direction)
    requires Sum(Checks(kids, d)) > 0
    ensures exists i :: 0 <= i < |kids| && Check(kids[i], d) > 0
  {
    if Check(kids[0], d) == 0 {
      assert Checks(kids[1..], d) == Checks(kids, d)[1..];
      SomeSpace(kids[1..], d);
      var i :| 0 <= i < |kids[1..]| && Check(kids[1..][i], d) > 0;
      assert kids[1..][i] == kids[i + 1];
    }
  }

  lemma AllHaveSpace(t: Tree, d: Direction)
    requires t.Node? && t.dir != d
    ensures forall i :: 0 <= i < |t.kids| ==> Check(t.kids[i], d) >= Check(t, d)
  {
    LeastIsMinimum(Checks(t.kids, d), UINT_MAX);
  }

  /** Removes one unit: from all children across d, from the first child that
      can spare one along d. */
  function Trim(t: Tree, d: Direction): Tree
    requires Inhabited(t) && Check(t, d) > 0
  {
    match t
    case Leaf(_, _, _, _, _) => SetSize(t, d, Size(t, d) - 1)
    case Node(dir, _, _, _, _, kids) =>
      if dir == d then
        SomeSpace(kids, d);
        var j := FirstWithSpace(kids, d);
        Refit(t, d, Size(t, d) - 1, kids[j := Trim(kids[j], d)])
      else
        AllHaveSpace(t, d);
        Refit(t, d, Size(t, d) - 1, seq(|kids|, i requires 0 <= i < |kids| => Trim(kids[i], d)))
  }

  lemma ChecksUpdate(kids: seq<Tree>, d: Direction, i: nat, k: Tree)
    requires i < |kids|
    ensures Checks(kids[i := k], d) == Checks(kids, d)[i := Check(k, d)]
    ensures Sum(Checks(kids[i := k], d)) == Sum(Checks(kids, d)) - Check(kids[i], d) + Check(k, d)
  {
    assert Checks(kids[i := k], d) == Checks(kids, d)[i := Check(k, d)];
    SumUpdate(Checks(kids, d), i, Check(k, d));
  }

  lemma {:induction false} TrimCheck(t: Tree, d: Direction)
    requires Inhabited(t) && Check(t, d) > 0
    ensures Inhabited(Trim(t, d)) && Check(Trim(t, d), d) == Check(t, d) - 1
  {
    if t.Node? {
      var u := Trim(t, d);
      if t.dir == d {
        SomeSpace(t.kids, d);
        var j := FirstWithSpace(t.kids, d);
        TrimCheck(t.kids[j], d);
        ChecksUpdate(t.kids, d, j, Trim(t.kids[j], d));
      } else {
        AllHaveSpace(t, d);
        forall i | 0 <= i < |t.kids|
          ensures Inhabited(u.kids[i]) && Check(u.kids[i], d) == Check(t.kids[i], d) - 1
        {
          TrimCheck(t.kids[i], d);
        }
        LeastShift(Checks(t.kids, d), Checks(u.kids, d), UINT_MAX, -1);
      }
    }
  }

  lemma {:induction false} BumpCheck(t: Tree, d: Direction)
    requires Inhabited(t)
    ensures Inhabited(Bump(t, d))
    ensures Check(t, d) <= Check(Bump(t, d), d) <= Check(t, d) + 1
  {
    if t.Node? {
      var u := Bump(t, d);
      if t.dir == d {
        BumpCheck(t.kids[0], d);
        ChecksUpdate(t.kids, d, 0, Bump(t.kids[0], d));
      } else {
        forall i | 0 <= i < |t.kids|
          ensures Inhabited(u.kids[i])
          ensures Check(t.kids[i], d) <= Check(u.kids[i], d) <= Check(t.kids[i], d) + 1
        {
          BumpCheck(t.kids[i], d);
        }
        LeastIsMinimum(Checks(t.kids, d), UINT_MAX);
        LeastIsMinimum(Checks(u.kids, d), UINT_MAX);
        var i :| 0 <= i < |t.kids| && Checks(t.kids, d)[i] == Check(t, d);
        var j :| 0 <= j < |u.kids| && Checks(u.kids, d)[j] == Check(u, d);
        assert Check(u.kids[i], d) <= Check(t.kids[i], d) + 1;
        assert Check(t.kids[j], d) <= Check(u.kids[j], d);
      }
    }
  }

  // ----- The round-robin loop

  ghost predicate SpaceFrom(kids: seq<Tree>, d: Direction, i: nat) {
    exists j :: i <= j < |kids| && Check(kids[j], d) > 0
  }

  ghost predicate AllInhabited(kids: seq<Tree>) {
    forall i :: 0 <= i < |kids| ==> Inhabited(kids[i])
  }

  /** The loop from child i on: one unit to each child in turn when growing,
      one unit from each child that can spare it when shrinking, starting over
      at the first child until `change` is used up. */
  ghost function RoundRobin(kids: seq<Tree>, d: Direction, change: int, i: nat): (r: seq<Tree>)
    requires AllInhabited(kids) && kids != [] && i <= |kids|
    requires change >= -Sum(Checks(kids, d))
    ensures |r| == |kids|
    decreases Abs(change),
              if (if change > 0 then i < |kids| else SpaceFrom(kids, d, i)) then 0 else 1,
              |kids| - i
  {
    if change == 0 then kids
    else if i == |kids| then
      assert change < 0 ==> SpaceFrom(kids, d, 0) by {
        if change < 0 { SomeSpace(kids, d); }
      }
      RoundRobin(kids, d, change, 0)
    else if change > 0 then
      SumNonNegative(Checks(kids[i := Bump(kids[i], d)], d));
      BumpCheck(kids[i], d);
      ChecksUpdate(kids, d, i, Bump(kids[i], d));
      RoundRobin(kids[i := Bump(kids[i], d)], d, change - 1, i + 1)
    else if Check(kids[i], d) > 0 then
      TrimCheck(kids[i], d);
      ChecksUpdate(kids, d, i, Trim(kids[i], d));
      RoundRobin(kids[i := Trim(kids[i], d)], d, change + 1, i + 1)
    else RoundRobin(kids, d, change, i + 1)
  }

  ghost function Adjust(t: Tree, d: Direction, change: int): Tree
    requires Inhabited(t) && change >= -Check(t, d)
  {
    match t
    case Leaf(_, _, _, _, _) => SetSize(t, d, Size(t, d) + change)
    case Node(dir, _, _, _, _, kids) =>
      if dir == d then Refit(t, d, Size(t, d) + change, RoundRobin(kids, d, change, 0))
      else
        AllHaveSpace(t, d);
        Refit(t, d, Size(t, d) + change, seq(|kids|, i requires 0 <= i < |kids| => Adjust(kids[i], d, change)))
  }

  // ----- What an adjustment keeps and changes

  /** The tree with its sizes along d blanked out: shape, panes, offsets and
      the sizes on the other axis. */
  function Erase(t: Tree, d: Direction): Tree {
    match t
    case Leaf(_, _, _, _, _) => SetSize(t, d, 0)
    case Node(_, _, _, _, _, kids) => SetSize(t, d, 0).(kids := EraseAll(kids, d))
  }

  function EraseAll(kids: seq<Tree>, d: Direction): (r: seq<Tree>)
    ensures |r| == |kids|
  {
    seq(|kids|, i requires 0 <= i < |kids| => Erase(kids[i], d))
  }

  /** No leaf of r is smaller along d than the leaf it came from, unless both
      are at least PANE_MINIMUM long. */
  ghost predicate Spared(t: Tree, r: Tree, d: Direction) {
    if t.Leaf? || r.Leaf? then Size(r, d) >= Min(Size(t, d), PANE_MINIMUM)
    else |t.kids| == |r.kids| && forall i :: 0 <= i < |t.kids| ==> Spared(t.kids[i], r.kids[i], d)
  }

  /** Nothing but sizes along d differs, and those differ within bounds. */
  ghost predicate Kept(t: Tree, r: Tree, d: Direction) {
    Inhabited(r) && Erase(r, d) == Erase(t, d) && Spared(t, r, d) && (Fits(t, d) ==> Fits(r, d))
  }

  /** r is t with its size along d changed by exactly c, and nothing else. */
  ghost predicate Adjusted(t: Tree, r: Tree, d: Direction, c: int) {
    && Kept(t, r, d)
    && Size(r, d) == Size(t, d) + c
    && (c <= 0 ==> Check(r, d) == Check(t, d) + c)
    && (c >= 0 ==> Check(t, d) <= Check(r, d) <= Check(t, d) + c)
  }

  /** The same relation between two lists of children: `c` is shared out. */
  ghost predicate KidsAdjusted(kids: seq<Tree>, r: seq<Tree>, d: Direction, c: int) {
    && |r| == |kids|
    && (forall i :: 0 <= i < |kids| ==> Kept(kids[i], r[i], d))
    && Sum(Sizes(r, d)) == Sum(Sizes(kids, d)) + c
    && (c <= 0 ==> Sum(Checks(r, d)) == Sum(Checks(kids, d)) + c)
    && (c >= 0 ==> Sum(Checks(kids, d)) <= Sum(Checks(r, d)) <= Sum(Checks(kids, d)) + c)
  }

  lemma {:induction false} SparedSelf(t: Tree, d: Direction)
    ensures Spared(t, t, d)
  {
    if t.Node? {
      forall i | 0 <= i < |t.kids| ensures Spared(t.kids[i], t.kids[i], d) {
        SparedSelf(t.kids[i], d);
      }
    }
  }

  lemma {:induction false} SparedTransitive(t: Tree, u: Tree, v: Tree, d: Direction)
    requires Spared(t, u, d) && Spared(u, v, d)
    requires Erase(t, d) == Erase(u, d) == Erase(v, d)
    ensures Spared(t, v, d)
  {
    if t.Node? {
      forall i | 0 <= i < |t.kids| ensures Spared(t.kids[i], v.kids[i], d) {
        assert EraseAll(t.kids, d)[i] == EraseAll(u.kids, d)[i] == EraseAll(v.kids, d)[i];
        SparedTransitive(t.kids[i], u.kids[i], v.kids[i], d);
      }
    }
  }

  /** One child changed: the list changed by the same amount. */
  lemma OneAdjusted(kids: seq<Tree>, d: Direction, c: int, i: nat, k: Tree)
    requires i < |kids| && AllInhabited(kids)
    requires Adjusted(kids[i], k, d, c)
    ensures KidsAdjusted(kids, kids[i := k], d, c)
  {
    forall j | 0 <= j < |kids| ensures Kept(kids[j], kids[i := k][j], d) {
      SparedSelf(kids[j], d);
    }
    assert Sizes(kids[i := k], d) == Sizes(kids, d)[i := Size(k, d)];
    SumUpdate(Sizes(kids, d), i, Size(k, d));
    ChecksUpdate(kids, d, i, k);
  }

  lemma KidsTransitive(kids: seq<Tree>, u: seq<Tree>, v: seq<Tree>, d: Direction, a: int, b: int)
    requires KidsAdjusted(kids, u, d, a) && KidsAdjusted(u, v, d, b)
    requires (a >= 0 && b >= 0) || (a <= 0 && b <= 0)
    ensures KidsAdjusted(kids, v, d, a + b)
  {
    forall i | 0 <= i < |kids| ensures Kept(kids[i], v[i], d) {
      assert Kept(kids[i], u[i], d) && Kept(u[i], v[i], d);
      SparedTransitive(kids[i], u[i], v[i], d);
    }
  }

  /** A container along d whose children were adjusted. */
  lemma NodeAlong(t: Tree, r: seq<Tree>, d: Direction, c: int)
    requires t.Node? && t.dir == d && Inhabited(t)
    requires KidsAdjusted(t.kids, r, d, c)
    ensures Adjusted(t, Refit(t, d, Size(t, d) + c, r), d, c)
  {
    assert EraseAll(r, d) == EraseAll(t.kids, d) by {
      forall i | 0 <= i < |r| ensures EraseAll(r, d)[i] == EraseAll(t.kids, d)[i] {
        assert Kept(t.kids[i], r[i], d);
      }
    }
    forall k | k in r ensures Inhabited(k) && (Fits(t, d) ==> Fits(k, d)) {
      var i :| 0 <= i < |r| && r[i] == k;
      assert t.kids[i] in t.kids && Kept(t.kids[i], r[i], d);
    }
  }

  lemma LeastAdjusted(kids: seq<Tree>, r: seq<Tree>, d: Direction, c: int)
    requires kids != [] && |r| == |kids|
    requires forall i :: 0 <= i < |r| ==>
               (c <= 0 ==> Check(r[i], d) == Check(kids[i], d) + c)
               && (c >= 0 ==> Check(kids[i], d) <= Check(r[i], d) <= Check(kids[i], d) + c)
    ensures c <= 0 ==> Least(Checks(r, d), UINT_MAX) == Least(Checks(kids, d), UINT_MAX) + c
    ensures c >= 0 ==> Least(Checks(kids, d), UINT_MAX) <= Least(Checks(r, d), UINT_MAX)
                       <= Least(Checks(kids, d), UINT_MAX) + c
  {
    var a, b := Checks(kids, d), Checks(r, d);
    if c <= 0 { LeastShift(a, b, UINT_MAX, c); }
    LeastIsMinimum(a, UINT_MAX);
    LeastIsMinimum(b, UINT_MAX);
    var i :| 0 <= i < |a| && a[i] == Least(a, UINT_MAX);
    var j :| 0 <= j < |b| && b[j] == Least(b, UINT_MAX);
    assert b[i] == Check(r[i], d) && a[j] == Check(kids[j], d);
  }

  lemma AcrossFits(t: Tree, r: seq<Tree>, d: Direction, c: int)
    requires t.Node? && t.dir != d && Fits(t, d)
    requires |r| == |t.kids| && forall i :: 0 <= i < |r| ==> Adjusted(t.kids[i], r[i], d, c)
    ensures Fits(Refit(t, d, Size(t, d) + c, r), d)
  {
    forall k | k in r ensures Fits(k, d) && Size(k, d) == Size(t, d) + c {
      var i :| 0 <= i < |r| && r[i] == k;
      assert t.kids[i] in t.kids && Adjusted(t.kids[i], r[i], d, c);
    }
  }

  lemma AcrossErase(t: Tree, r: seq<Tree>, d: Direction, c: int)
    requires t.Node? && Inhabited(t)
    requires |r| == |t.kids| && forall i :: 0 <= i < |r| ==> Kept(t.kids[i], r[i], d)
    ensures Erase(Refit(t, d, Size(t, d) + c, r), d) == Erase(t, d)
    ensures Inhabited(Refit(t, d, Size(t, d) + c, r))
  {
    assert EraseAll(r, d) == EraseAll(t.kids, d) by {
      forall i | 0 <= i < |r| ensures EraseAll(r, d)[i] == EraseAll(t.kids, d)[i] {
        assert Kept(t.kids[i], r[i], d);
      }
    }
    forall k | k in r ensures Inhabited(k) {
      var i :| 0 <= i < |r| && r[i] == k;
      assert Kept(t.kids[i], r[i], d);
    }
  }

  /** A container across d all of whose children changed by c. */
  lemma NodeAcross(t: Tree, r: seq<Tree>, d: Direction, c: int)
    requires t.Node? && t.dir != d && Inhabited(t)
    requires |r| == |t.kids| && forall i :: 0 <= i < |r| ==> Adjusted(t.kids[i], r[i], d, c)
    ensures Adjusted(t, Refit(t, d, Size(t, d) + c, r), d, c)
  {
    hide Inhabited, Fits, Erase, EraseAll, Least;
    InhabitedKids(t);
    AcrossErase(t, r, d, c);
    LeastAdjusted(t.kids, r, d, c);
    if Fits(t, d) { AcrossFits(t, r, d, c); }
  }

  lemma InhabitedKids(t: Tree)
    requires t.Node? && Inhabited(t)
    ensures t.kids != [] && forall i :: 0 <= i < |t.kids| ==> Inhabited(t.kids[i])
  {}

  lemma {:induction false} BumpAdjusts(t: Tree, d: Direction)
    requires Inhabited(t)
    ensures Adjusted(t, Bump(t, d), d, 1)
    decreases t, 1
  {
    if t.Node? {
      if t.dir == d {
        BumpAdjusts(t.kids[0], d);
        OneAdjusted(t.kids, d, 1, 0, Bump(t.kids[0], d));
        NodeAlong(t, Bump(t, d).kids, d, 1);
      } else {
        BumpAcross(t, d);
      }
    }
  }

  lemma {:induction false} BumpAcross(t: Tree, d: Direction)
    requires Inhabited(t) && t.Node? && t.dir != d
    ensures Adjusted(t, Bump(t, d), d, 1)
    decreases t, 0
  {
    forall i | 0 <= i < |t.kids| ensures Adjusted(t.kids[i], Bump(t, d).kids[i], d, 1) {
      BumpAdjusts(t.kids[i], d);
    }
    NodeAcross(t, Bump(t, d).kids, d, 1);
  }

  lemma {:induction false} TrimAdjusts(t: Tree, d: Direction)
    requires Inhabited(t) && Check(t, d) > 0
    ensures Adjusted(t, Trim(t, d), d, -1)
    decreases t, 1
  {
    hide KidsAdjusted;
    if t.Node? {
      if t.dir == d {
        SomeSpace(t.kids, d);
        var j := FirstWithSpace(t.kids, d);
        TrimAdjusts(t.kids[j], d);
        OneAdjusted(t.kids, d, -1, j, Trim(t.kids[j], d));
        NodeAlong(t, Trim(t, d).kids, d, -1);
      } else {
        TrimAcross(t, d);
      }
    }
  }

  lemma {:induction false} TrimAcross(t: Tree, d: Direction)
    requires Inhabited(t) && t.Node? && t.dir != d && Check(t, d) > 0
    ensures Adjusted(t, Trim(t, d), d, -1)
    decreases t, 0
  {
    AllHaveSpace(t, d);
    forall i | 0 <= i < |t.kids| ensures Adjusted(t.kids[i], Trim(t, d).kids[i], d, -1) {
      TrimAdjusts(t.kids[i], d);
    }
    NodeAcross(t, Trim(t, d).kids, d, -1);
  }

  lemma UnitSizes(t: Tree, d: Direction)
    requires Inhabited(t)
    ensures Inhabited(Bump(t, d)) && Size(Bump(t, d), d) == Size(t, d) + 1
    ensures Check(t, d) > 0 ==>
              Inhabited(Trim(t, d)) && Size(Trim(t, d), d) == Size(t, d) - 1
              && Check(Trim(t, d), d) == Check(t, d) - 1
  {
    BumpAdjusts(t, d);
    if Check(t, d) > 0 { TrimAdjusts(t, d); }
  }

  lemma KidsSelf(kids: seq<Tree>, d: Direction)
    requires AllInhabited(kids)
    ensures KidsAdjusted(kids, kids, d, 0)
  {
    forall j | 0 <= j < |kids| ensures Kept(kids[j], kids[j], d) { SparedSelf(kids[j], d); }
  }

  lemma GrowStep(kids: seq<Tree>, d: Direction, change: int, i: nat, r: seq<Tree>)
    requires AllInhabited(kids) && i < |kids| && change > 0
    requires KidsAdjusted(kids[i := Bump(kids[i], d)], r, d, change - 1)
    ensures KidsAdjusted(kids, r, d, change)
  {
    BumpAdjusts(kids[i], d);
    OneAdjusted(kids, d, 1, i, Bump(kids[i], d));
    KidsTransitive(kids, kids[i := Bump(kids[i], d)], r, d, 1, change - 1);
  }

  lemma ShrinkStep(kids: seq<Tree>, d: Direction, change: int, i: nat, r: seq<Tree>)
    requires AllInhabited(kids) && i < |kids| && change < 0 && Check(kids[i], d) > 0
    requires KidsAdjusted(kids[i := Trim(kids[i], d)], r, d, change + 1)
    ensures KidsAdjusted(kids, r, d, change)
  {
    TrimAdjusts(kids[i], d);
    OneAdjusted(kids, d, -1, i, Trim(kids[i], d));
    KidsTransitive(kids, kids[i := Trim(kids[i], d)], r, d, -1, change + 1);
  }

  lemma {:induction false} GrowAdjusts(kids: seq<Tree>, d: Direction, change: nat, i: nat)
    requires AllInhabited(kids) && kids != [] && i <= |kids|
    ensures Sum(Checks(kids, d)) >= 0
    ensures KidsAdjusted(kids, RoundRobin(kids, d, change, i), d, change)
    decreases change, if i < |kids| then 0 else 1
  {
    hide KidsAdjusted, Inhabited, Check, Bump;
    SumNonNegative(Checks(kids, d));
    if change == 0 {
      KidsSelf(kids, d);
    } else if i == |kids| {
      GrowAdjusts(kids, d, change, 0);
    } else {
      var next := kids[i := Bump(kids[i], d)];
      BumpCheck(kids[i], d);
      GrowAdjusts(next, d, change - 1, i + 1);
      GrowStep(kids, d, change, i, RoundRobin(next, d, change - 1, i + 1));
    }
  }

  lemma {:induction false} ShrinkAdjusts(kids: seq<Tree>, d: Direction, change: int, i: nat)
    requires AllInhabited(kids) && kids != [] && i <= |kids|
    requires 0 >= change >= -Sum(Checks(kids, d))
    ensures KidsAdjusted(kids, RoundRobin(kids, d, change, i), d, change)
    decreases -change, if SpaceFrom(kids, d, i) then 0 else 1, |kids| - i
  {
    hide KidsAdjusted, Inhabited, Check, Sum;
    if change == 0 {
      KidsSelf(kids, d);
    } else if i == |kids| {
      SomeSpace(kids, d);
      assert SpaceFrom(kids, d, 0);
      ShrinkAdjusts(kids, d, change, 0);
    } else if Check(kids[i], d) == 0 {
      ShrinkAdjusts(kids, d, change, i + 1);
    } else {
      var next := kids[i := Trim(kids[i], d)];
      TrimCheck(kids[i], d);
      ChecksUpdate(kids, d, i, Trim(kids[i], d));
      ShrinkAdjusts(next, d, change + 1, i + 1);
      ShrinkStep(kids, d, change, i, RoundRobin(next, d, change + 1, i + 1));
    }
  }

  lemma RoundRobinAdjusts(kids: seq<Tree>, d: Direction, change: int, i: nat)
    requires AllInhabited(kids) && kids != [] && i <= |kids|
    requires change >= -Sum(Checks(kids, d))
    ensures KidsAdjusted(kids, RoundRobin(kids, d, change, i), d, change)
  {
    if change >= 0 { GrowAdjusts(kids, d, change, i); } else { ShrinkAdjusts(kids, d, change, i); }
  }

  /** The main fact about layout_resize_adjust: on any tree and any change
      bounded by the space available, the size along d changes by exactly
      `change`, everything else keeps its value, a filled tree stays filled, no
      leaf goes below PANE_MINIMUM on account of it, and a shrink takes exactly
      what it removes out of the space available. */
  lemma {:induction false} AdjustAdjusts(t: Tree, d: Direction, change: int)
    requires Inhabited(t) && change >= -Check(t, d)
    ensures Adjusted(t, Adjust(t, d, change), d, change)
  {
    if t.Node? {
      var r := Adjust(t, d, change);
      if t.dir == d {
        RoundRobinAdjusts(t.kids, d, change, 0);
        NodeAlong(t, r.kids, d, change);
      } else {
        AllHaveSpace(t, d);
        forall i | 0 <= i < |t.kids| ensures Adjusted(t.kids[i], r.kids[i], d, change) {
          AdjustAdjusts(t.kids[i], d, change);
        }
        NodeAcross(t, r.kids, d, change);
      }
    }
  }

  // ----- The other axis

  lemma EraseKids(t: Tree, u: Tree, d: Direction, i: nat)
    requires t.Node? && u.Node? && Erase(t, d) == Erase(u, d) && i < |t.kids|
    ensures |u.kids| == |t.kids| && Erase(t.kids[i], d) == Erase(u.kids[i], d)
  {
    assert EraseAll(t.kids, d)[i] == EraseAll(u.kids, d)[i];
  }

  lemma {:induction false} EraseKeepsFits(t: Tree, u: Tree, d: Direction)
    requires Erase(t, d) == Erase(u, d) && Fits(t, Other(d))
    ensures Size(t, Other(d)) == Size(u, Other(d)) && Fits(u, Other(d))
  {
    var o := Other(d);
    if t.Node? {
      assert |EraseAll(t.kids, d)| == |EraseAll(u.kids, d)|;
      forall i | 0 <= i < |u.kids|
        ensures Fits(u.kids[i], o) && Size(u.kids[i], o) == Size(t.kids[i], o)
      {
        EraseKids(t, u, d, i);
        EraseKeepsFits(t.kids[i], u.kids[i], d);
      }
      assert Sizes(t.kids, o) == Sizes(u.kids, o);
    }
  }

  lemma {:induction false} EraseKeepsCheck(t: Tree, u: Tree, d: Direction)
    requires Erase(t, d) == Erase(u, d)
    ensures Check(t, Other(d)) == Check(u, Other(d))
  {
    var o := Other(d);
    if t.Node? {
      assert |EraseAll(t.kids, d)| == |EraseAll(u.kids, d)|;
      forall i | 0 <= i < |u.kids| ensures Check(u.kids[i], o) == Check(t.kids[i], o) {
        EraseKids(t, u, d, i);
        EraseKeepsCheck(t.kids[i], u.kids[i], d);
      }
      assert Checks(t.kids, o) == Checks(u.kids, o);
    }
  }

  lemma AdjustKeepsTiled(t: Tree, d: Direction, change: int)
    requires Tiled(t) && change >= -Check(t, d)
    ensures var r := Adjust(t, d, change);
            Tiled(r) && Check(r, Other(d)) == Check(t, Other(d)) && Size(r, Other(d)) == Size(t, Other(d))
  {
    AdjustAdjusts(t, d, change);
    EraseKeepsFits(t, Adjust(t, d, change), d);
    EraseKeepsCheck(t, Adjust(t, d, change), d);
  }

  // ----- Single units are adjustments by one

  lemma {:induction false} UnitAdjust(t: Tree, d: Direction)
    requires Inhabited(t)
    ensures Adjust(t, d, 1) == Bump(t, d)
    ensures Check(t, d) > 0 ==> Adjust(t, d, -1) == Trim(t, d)
  {
    if t.Node? {
      if t.dir == d {
        RoundRobinOnce(t.kids, d, 0);
      } else {
        AllHaveSpace(t, d);
        forall i | 0 <= i < |t.kids|
          ensures Adjust(t.kids[i], d, 1) == Bump(t.kids[i], d)
          ensures Check(t, d) > 0 ==> Adjust(t.kids[i], d, -1) == Trim(t.kids[i], d)
        {
          UnitAdjust(t.kids[i], d);
        }
        assert Adjust(t, d, 1).kids == Bump(t, d).kids;
        if Check(t, d) > 0 { assert Adjust(t, d, -1).kids == Trim(t, d).kids; }
      }
    }
  }

  lemma {:induction false} RoundRobinOnce(kids: seq<Tree>, d: Direction, i: nat)
    requires AllInhabited(kids) && kids != [] && i <= |kids|
    requires forall j :: 0 <= j < i ==> Check(kids[j], d) == 0
    ensures Sum(Checks(kids, d)) > 0 ==>
              SpaceFrom(kids, d, 0) &&
              var j := FirstWithSpace(kids, d);
              RoundRobin(kids, d, -1, i) == kids[j := Trim(kids[j], d)]
    ensures Sum(Checks(kids, d)) >= 0
    ensures i == 0 ==> RoundRobin(kids, d, 1, 0) == kids[0 := Bump(kids[0], d)]
    decreases |kids| - i
  {
    if Sum(Checks(kids, d)) > 0 {
      SomeSpace(kids, d);
      if Check(kids[i], d) > 0 {
        TrimCheck(kids[i], d);
        ChecksUpdate(kids, d, i, Trim(kids[i], d));
      } else {
        RoundRobinOnce(kids, d, i + 1);
      }
    }
    SumNonNegative(Checks(kids, d));
  }

  // ----- One turn of the round-robin loop

  ghost predicate CanShare(kids: seq<Tree>, d: Direction, change: int) {
    AllInhabited(kids) && kids != [] && change >= -Sum(Checks(kids, d))
  }

  lemma GrowShare(kids: seq<Tree>, d: Direction, change: int, i: nat)
    requires CanShare(kids, d, change) && i < |kids| && change > 0
    ensures Inhabited(kids[i]) && 1 >= -Check(kids[i], d) && Adjust(kids[i], d, 1) == Bump(kids[i], d)
    ensures var next := kids[i := Bump(kids[i], d)];
            CanShare(next, d, change - 1)
            && RoundRobin(next, d, change - 1, i + 1) == RoundRobin(kids, d, change, i)
  {
    var next := kids[i := Bump(kids[i], d)];
    UnitAdjust(kids[i], d);
    BumpCheck(kids[i], d);
    SumNonNegative(Checks(next, d));
  }

  lemma ShrinkShare(kids: seq<Tree>, d: Direction, change: int, i: nat)
    requires CanShare(kids, d, change) && i < |kids| && change < 0 && Check(kids[i], d) > 0
    ensures Inhabited(kids[i]) && -1 >= -Check(kids[i], d) && Adjust(kids[i], d, -1) == Trim(kids[i], d)
    ensures var next := kids[i := Trim(kids[i], d)];
            CanShare(next, d, change + 1)
            && RoundRobin(next, d, change + 1, i + 1) == RoundRobin(kids, d, change, i)
  {
    UnitAdjust(kids[i], d);
    TrimCheck(kids[i], d);
    ChecksUpdate(kids, d, i, Trim(kids[i], d));
  }

  lemma SkipShare(kids: seq<Tree>, d: Direction, change: int, i: nat)
    requires CanShare(kids, d, change) && i <= |kids| && change < 0
    ensures i < |kids| && Check(kids[i], d) == 0 ==>
              RoundRobin(kids, d, change, i + 1) == RoundRobin(kids, d, change, i)
              && (SpaceFrom(kids, d, i) ==> SpaceFrom(kids, d, i + 1))
    ensures SpaceFrom(kids, d, 0)
  {
    SomeSpace(kids, d);
  }

  lemma WrapShare(kids: seq<Tree>, d: Direction, change: int, i: nat)
    requires CanShare(kids, d, change) && i <= |kids| && (i == |kids| || change == 0)
    ensures RoundRobin(kids, d, change, 0) == RoundRobin(kids, d, change, i)
    ensures change == 0 ==> RoundRobin(kids, d, change, i) == kids
    ensures i == |kids| ==> !SpaceFrom(kids, d, i)
  {}
}
