// How evenly layout_resize_adjust shares a change out between children.
module LayoutEven {
  import opened Common
  import opened LayoutTree
  import opened LayoutAdjust

  /** Round b is under way: children before i have had b + 1 units, the others b. */
  ghost predicate GrownTo(kids: seq<Tree>, r: seq<Tree>, d: Direction, b: int, i: nat) {
    && |r| == |kids|
    && forall k :: 0 <= k < |kids| ==> Size(r[k], d) == Size(kids[k], d) + (if k < i then b + 1 else b)
  }

  lemma {:induction false} GrowRounds(
    orig: seq<Tree>, kids: seq<Tree>, d: Direction, change: nat, i: nat, b: int)
    returns (b': int, i': nat)
    requires AllInhabited(kids) && kids != [] && i <= |kids|
    requires GrownTo(orig, kids, d, b, i)
    ensures Sum(Checks(kids, d)) >= 0
    ensures GrownTo(orig, RoundRobin(kids, d, change, i), d, b', i') && i' <= |kids|
    decreases change, if i < |kids| then 0 else 1
  {
    SumNonNegative(Checks(kids, d));
    if change == 0 {
      b', i' := b, i;
    } else if i == |kids| {
      b', i' := GrowRounds(orig, kids, d, change, 0, b + 1);
    } else {
      UnitSizes(kids[i], d);
      b', i' := GrowRounds(orig, kids[i := Bump(kids[i], d)], d, change - 1, i + 1, b);
    }
  }

  /** A growing container shares the new space to within one unit, earlier
      children first. */
  lemma GrowEvenly(t: Tree, d: Direction, change: nat)
    requires Inhabited(t) && t.Node? && t.dir == d
    ensures var r := Adjust(t, d, change).kids;
            |r| == |t.kids| &&
            forall i, j :: 0 <= i < j < |r| ==>
              0 <= (Size(r[i], d) - Size(t.kids[i], d)) - (Size(r[j], d) - Size(t.kids[j], d)) <= 1
  {
    var b, i := GrowRounds(t.kids, t.kids, d, change, 0, 0);
  }

  /** Child k has given n units, or has given fewer and has none left. */
  ghost predicate Gave(t: Tree, r: Tree, d: Direction, n: int) {
    Size(r, d) == Size(t, d) - n || (Check(r, d) == 0 && Size(r, d) > Size(t, d) - n)
  }

  ghost predicate ShrunkTo(kids: seq<Tree>, r: seq<Tree>, d: Direction, b: int, i: nat) {
    && |r| == |kids|
    && forall k :: 0 <= k < |kids| ==> Gave(kids[k], r[k], d, if k < i then b + 1 else b)
  }

  lemma ShrunkNext(orig: seq<Tree>, kids: seq<Tree>, d: Direction, b: int, i: nat)
    requires i <= |kids| && AllInhabited(kids) && ShrunkTo(orig, kids, d, b, i)
    ensures i == |kids| ==> ShrunkTo(orig, kids, d, b + 1, 0)
    ensures i < |kids| && Check(kids[i], d) == 0 ==> ShrunkTo(orig, kids, d, b, i + 1)
    ensures i < |kids| && Check(kids[i], d) > 0 ==> ShrunkTo(orig, kids[i := Trim(kids[i], d)], d, b, i + 1)
    ensures |kids| == |orig|
  {
    hide Inhabited, Trim, Check, SetSize;
    if i < |kids| && Check(kids[i], d) > 0 { UnitSizes(kids[i], d); }
  }

  lemma {:induction false} ShrinkRounds(
    orig: seq<Tree>, kids: seq<Tree>, d: Direction, change: int, i: nat, b: int)
    returns (b': int, i': nat)
    requires AllInhabited(kids) && kids != [] && i <= |kids|
    requires 0 >= change >= -Sum(Checks(kids, d))
    requires ShrunkTo(orig, kids, d, b, i)
    ensures ShrunkTo(orig, RoundRobin(kids, d, change, i), d, b', i') && i' <= |kids|
    decreases -change, if SpaceFrom(kids, d, i) then 0 else 1, |kids| - i
  {
    hide Inhabited, Trim, Check, SetSize, ShrunkTo;
    ShrunkNext(orig, kids, d, b, i);
    if change == 0 {
      b', i' := b, i;
    } else if i == |kids| {
      SomeSpace(kids, d);
      assert SpaceFrom(kids, d, 0);
      b', i' := ShrinkRounds(orig, kids, d, change, 0, b + 1);
    } else if Check(kids[i], d) == 0 {
      b', i' := ShrinkRounds(orig, kids, d, change, i + 1, b);
    } else {
      UnitSizes(kids[i], d);
      ChecksUpdate(kids, d, i, Trim(kids[i], d));
      b', i' := ShrinkRounds(orig, kids[i := Trim(kids[i], d)], d, change + 1, i + 1, b);
    }
  }

  /** A shrinking container takes from each child to within one unit of any
      other, earlier children first, except from children that end with nothing
      left to give. */
  lemma ShrinkEvenly(t: Tree, d: Direction, change: int)
    requires Inhabited(t) && t.Node? && t.dir == d && 0 >= change >= -Check(t, d)
    ensures var r := Adjust(t, d, change).kids;
            |r| == |t.kids| &&
            forall i, j :: 0 <= i < |r| && 0 <= j < |r| && Check(r[i], d) > 0 ==>
              Size(t.kids[j], d) - Size(r[j], d) <= Size(t.kids[i], d) - Size(r[i], d) + if i < j then 0 else 1
  {
    var b, n := ShrinkRounds(t.kids, t.kids, d, change, 0, 0);
    var r := Adjust(t, d, change).kids;
    forall i, j | 0 <= i < |r| && 0 <= j < |r| && Check(r[i], d) > 0
      ensures Size(t.kids[j], d) - Size(r[j], d) <= Size(t.kids[i], d) - Size(r[i], d) + if i < j then 0 else 1
    {
      assert Gave(t.kids[i], r[i], d, if i < n then b + 1 else b);
      assert Gave(t.kids[j], r[j], d, if j < n then b + 1 else b);
    }
  }
}
