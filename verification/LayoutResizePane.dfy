// layout_resize_pane: moving space between the children of one container.
module LayoutResizePane {
  import opened Common
  import opened LayoutTree
  import opened LayoutAdjust
  import opened LayoutOffsets
  import opened LayoutPaths
  import opened LayoutPlaced
  import opened LayoutClose

  /** One container's children: each tiled, as long as the container across d. */
  ghost predicate Row(kids: seq<Tree>, d: Direction, across: int) {
    forall i :: 0 <= i < |kids| ==>
      Sound(kids[i]) && Size(kids[i], Other(d)) == across
  }

  ghost predicate Movable(kids: seq<Tree>, d: Direction, to: nat, from: nat, n: int, across: int) {
    to < |kids| && from < |kids| && to != from && Row(kids, d, across) && 0 <= n <= Check(kids[from], d)
  }

  /** Space moved from child `from` to child `to`. */
  ghost function Move(kids: seq<Tree>, d: Direction, to: nat, from: nat, n: int, across: int): (r: seq<Tree>)
    requires Movable(kids, d, to, from, n, across)
    ensures |r| == |kids|
  {
    kids[to := Adjust(kids[to], d, n)][from := Adjust(kids[from], d, -n)]
  }

  lemma MoveFacts(kids: seq<Tree>, d: Direction, to: nat, from: nat, n: int, across: int)
    requires Movable(kids, d, to, from, n, across)
    ensures var r := Move(kids, d, to, from, n, across);
            && Row(r, d, across)
            && (forall i :: 0 <= i < |kids| && i != to && i != from ==> r[i] == kids[i])
            && Size(r[to], d) == Size(kids[to], d) + n
            && Size(r[from], d) == Size(kids[from], d) - n
            && Check(r[from], d) == Check(kids[from], d) - n
            && Check(kids[to], d) <= Check(r[to], d) <= Check(kids[to], d) + n
            && (forall i :: 0 <= i < |kids| ==>
                  Check(r[i], Other(d)) == Check(kids[i], Other(d)) && Panes(r[i]) == Panes(kids[i]))
  {
    hide Inhabited, Fits, Branching, Positive, Panes, Adjust;
    AdjustFacts(kids[to], d, n);
    AdjustFacts(kids[from], d, -n);
  }

  // ----- Growing: layout_resize_pane_grow

  lemma MoveRow(kids: seq<Tree>, d: Direction, to: nat, from: nat, n: int, across: int)
    requires to < |kids| && from < |kids| && to != from && Row(kids, d, across) && 0 <= n <= Check(kids[from], d)
    ensures Movable(kids, d, to, from, n, across) && Row(Move(kids, d, to, from, n, across), d, across)
  {
    hide Move, Row;
    MoveFacts(kids, d, to, from, n, across);
  }

  /** First child after i with space to give, else the nearest one before i. */
  function DonorAfter(kids: seq<Tree>, d: Direction, i: nat): (j: nat)
    ensures i <= j && (j < |kids| ==> Check(kids[j], d) > 0)
    ensures forall k :: i <= k < j && k < |kids| ==> Check(kids[k], d) == 0
    decreases |kids| - i
  {
    if i >= |kids| || Check(kids[i], d) > 0 then i else DonorAfter(kids, d, i + 1)
  }

  function DonorBefore(kids: seq<Tree>, d: Direction, i: nat): (j: int)
    requires i <= |kids|
    ensures -1 <= j < i && (j >= 0 ==> Check(kids[j], d) > 0)
    ensures forall k :: j < k < i ==> Check(kids[k], d) == 0
  {
    if i == 0 then -1 else if Check(kids[i - 1], d) > 0 then i - 1 else DonorBefore(kids, d, i - 1)
  }

  function GrowDonor(kids: seq<Tree>, d: Direction, i: nat): (j: int)
    requires i < |kids|
    ensures j == -1 || (0 <= j < |kids| && j != i && Check(kids[j], d) > 0)
    ensures j == -1 ==> forall k :: 0 <= k < |kids| && k != i ==> Check(kids[k], d) == 0
  {
    var a := DonorAfter(kids, d, i + 1);
    if a < |kids| then a else DonorBefore(kids, d, i)
  }

  /** Space the children other than i can give. */
  function OthersCheck(kids: seq<Tree>, d: Direction, i: nat): (r: int)
    requires i < |kids|
    ensures r >= 0
  {
    SumAt(Checks(kids, d), i);
    SumNonNegative(Checks(kids, d));
    Sum(Checks(kids, d)) - Check(kids[i], d)
  }

  lemma MoveChecks(kids: seq<Tree>, d: Direction, to: nat, from: nat, n: int, across: int)
    requires Movable(kids, d, to, from, n, across)
    ensures var r := Move(kids, d, to, from, n, across);
            && OthersCheck(r, d, to) == OthersCheck(kids, d, to) - n
            && Sum(Sizes(r, d)) == Sum(Sizes(kids, d))
            && Sum(Checks(r, d)) <= Sum(Checks(kids, d))
  {
    hide Inhabited, Fits, Branching, Positive, Panes, Adjust;
    MoveFacts(kids, d, to, from, n, across);
    var u := kids[to := Adjust(kids[to], d, n)];
    var r := Move(kids, d, to, from, n, across);
    ChecksUpdate(kids, d, to, u[to]);
    ChecksUpdate(u, d, from, r[from]);
    assert Sizes(u, d) == Sizes(kids, d)[to := Size(u[to], d)];
    assert Sizes(r, d) == Sizes(u, d)[from := Size(r[from], d)];
    SumUpdate(Sizes(kids, d), to, Size(u[to], d));
    SumUpdate(Sizes(u, d), from, Size(r[from], d));
  }

  lemma NoOthers(kids: seq<Tree>, d: Direction, i: nat)
    requires i < |kids|
    ensures GrowDonor(kids, d, i) == -1 <==> OthersCheck(kids, d, i) == 0
    ensures forall k :: 0 <= k < |kids| && k != i ==> Check(kids[k], d) <= OthersCheck(kids, d, i)
  {
    var a := Checks(kids, d);
    SumAt(a, i);
    SumNonNegative(a[..i]);
    SumNonNegative(a[i + 1..]);
    forall k | 0 <= k < |kids| && k != i ensures Check(kids[k], d) <= OthersCheck(kids, d, i) {
      if k < i { assert a[..i][k] == a[k]; } else { assert a[i + 1..][k - i - 1] == a[k]; }
    }
    if GrowDonor(kids, d, i) == -1 {
      ZeroSum(a[..i]);
      ZeroSum(a[i + 1..]);
    }
  }

  lemma {:induction false} ZeroSum(s: seq<int>)
    requires forall i :: 0 <= i < |s| ==> s[i] == 0
    ensures Sum(s) == 0
  {
    if s != [] { ZeroSum(s[1..]); }
  }

  /** The loop of layout_resize_pane for a positive change. */
  ghost function GrowKid(kids: seq<Tree>, d: Direction, i: nat, needed: int, across: int): (r: seq<Tree>)
    requires i < |kids| && Row(kids, d, across) && needed >= 0
    ensures |r| == |kids|
    decreases needed
  {
    var j := GrowDonor(kids, d, i);
    if needed == 0 || j == -1 then kids
    else
      hide Move, Row, Check;
      var n := Min(Check(kids[j], d), needed);
      MoveRow(kids, d, i, j, n, across);
      GrowKid(Move(kids, d, i, j, n, across), d, i, needed - n, across)
  }

  // ----- Shrinking: layout_resize_pane_shrink

  /** Space children 0 to i can give. */
  function HeadCheck(kids: seq<Tree>, d: Direction, i: nat): (r: int)
    requires i < |kids|
    ensures r >= 0
  {
    SumNonNegative(Checks(kids[..i + 1], d));
    Sum(Checks(kids[..i + 1], d))
  }

  /** The loop of layout_resize_pane for a negative change, `needed` its size. */
  ghost function ShrinkKid(kids: seq<Tree>, d: Direction, i: nat, needed: int, across: int): (r: seq<Tree>)
    requires i + 1 < |kids| && Row(kids, d, across) && needed >= 0
    ensures |r| == |kids|
    decreases needed
  {
    var j := DonorBefore(kids, d, i + 1);
    if needed == 0 || j == -1 then kids
    else
      hide Move, Row, Check;
      var n := Min(Check(kids[j], d), needed);
      MoveRow(kids, d, i + 1, j, n, across);
      ShrinkKid(Move(kids, d, i + 1, j, n, across), d, i, needed - n, across)
  }

  lemma NoHead(kids: seq<Tree>, d: Direction, i: nat)
    requires i < |kids|
    ensures DonorBefore(kids, d, i + 1) == -1 <==> HeadCheck(kids, d, i) == 0
    ensures forall k :: 0 <= k <= i ==> Check(kids[k], d) <= HeadCheck(kids, d, i)
  {
    var a := Checks(kids[..i + 1], d);
    SumNonNegative(a);
    forall k | 0 <= k <= i ensures Check(kids[k], d) <= HeadCheck(kids, d, i) {
      assert a[k] == Check(kids[k], d);
    }
    if DonorBefore(kids, d, i + 1) == -1 { ZeroSum(a); }
  }

  lemma MoveHead(kids: seq<Tree>, d: Direction, i: nat, from: nat, n: int, across: int)
    requires from <= i && Movable(kids, d, i + 1, from, n, across)
    ensures HeadCheck(Move(kids, d, i + 1, from, n, across), d, i) == HeadCheck(kids, d, i) - n
  {
    MoveFacts(kids, d, i + 1, from, n, across);
    var r := Move(kids, d, i + 1, from, n, across);
    assert r[..i + 1] == kids[..i + 1][from := r[from]];
    ChecksUpdate(kids[..i + 1], d, from, r[from]);
  }

  // ----- The exact effect

  /** What both loops keep: the row, its total, everyone's panes and the other
      axis; space available never goes up in total. */
  ghost predicate Conserved(kids: seq<Tree>, r: seq<Tree>, d: Direction, across: int) {
    && |r| == |kids| && Row(r, d, across)
    && Sum(Sizes(r, d)) == Sum(Sizes(kids, d))
    && Sum(Checks(r, d)) <= Sum(Checks(kids, d))
    && forall k :: 0 <= k < |kids| ==>
         Check(r[k], Other(d)) == Check(kids[k], Other(d)) && Panes(r[k]) == Panes(kids[k])
  }

  lemma MoveConserves(kids: seq<Tree>, d: Direction, to: nat, from: nat, n: int, across: int)
    requires Movable(kids, d, to, from, n, across)
    ensures Conserved(kids, Move(kids, d, to, from, n, across), d, across)
  {
    MoveFacts(kids, d, to, from, n, across);
    MoveChecks(kids, d, to, from, n, across);
  }

  /** Child i gained n out of the other children. */
  ghost predicate Grown(kids: seq<Tree>, r: seq<Tree>, d: Direction, i: nat, n: int, across: int) {
    && Conserved(kids, r, d, across) && i < |kids|
    && Size(r[i], d) == Size(kids[i], d) + n
    && forall k :: 0 <= k < |kids| && k != i ==> Size(r[k], d) <= Size(kids[k], d)
  }

  /** Child i + 1 gained n out of children 0 to i, later ones are as before. */
  ghost predicate Shrunk(kids: seq<Tree>, r: seq<Tree>, d: Direction, i: nat, n: int, across: int) {
    && Conserved(kids, r, d, across) && i + 1 < |kids|
    && Size(r[i + 1], d) == Size(kids[i + 1], d) + n
    && (forall k :: 0 <= k <= i ==> Size(r[k], d) <= Size(kids[k], d))
    && forall k :: i + 1 < k < |kids| ==> r[k] == kids[k]
  }

  lemma ConservedTransitive(kids: seq<Tree>, u: seq<Tree>, r: seq<Tree>, d: Direction, across: int)
    requires Conserved(kids, u, d, across) && Conserved(u, r, d, across)
    ensures Conserved(kids, r, d, across)
  {
    hide Row, Sum, Panes, Check;
    forall k | 0 <= k < |kids|
      ensures Check(r[k], Other(d)) == Check(kids[k], Other(d)) && Panes(r[k]) == Panes(kids[k])
    {
      assert Panes(u[k]) == Panes(kids[k]);
    }
  }

  lemma GrownTransitive(
    kids: seq<Tree>, u: seq<Tree>, r: seq<Tree>, d: Direction, i: nat, m: int, n: int, across: int)
    requires Grown(kids, u, d, i, m, across) && Grown(u, r, d, i, n, across)
    ensures Grown(kids, r, d, i, m + n, across)
  {
    hide Conserved;
    ConservedTransitive(kids, u, r, d, across);
    assert |u| == |kids| == |r| by { ConservedLength(kids, u, d, across); ConservedLength(u, r, d, across); }
    forall k | 0 <= k < |kids| && k != i ensures Size(r[k], d) <= Size(kids[k], d) {
      assert Size(u[k], d) <= Size(kids[k], d);
    }
  }

  lemma ShrunkTransitive(
    kids: seq<Tree>, u: seq<Tree>, r: seq<Tree>, d: Direction, i: nat, m: int, n: int, across: int)
    requires Shrunk(kids, u, d, i, m, across) && Shrunk(u, r, d, i, n, across)
    ensures Shrunk(kids, r, d, i, m + n, across)
  {
    hide Conserved;
    ConservedTransitive(kids, u, r, d, across);
    assert |u| == |kids| == |r| by { ConservedLength(kids, u, d, across); ConservedLength(u, r, d, across); }
    forall k | 0 <= k <= i ensures Size(r[k], d) <= Size(kids[k], d) {
      assert Size(u[k], d) <= Size(kids[k], d);
    }
  }

  lemma ConservedLength(kids: seq<Tree>, r: seq<Tree>, d: Direction, across: int)
    requires Conserved(kids, r, d, across)
    ensures |r| == |kids| && Row(r, d, across)
  {}

  lemma MoveGrows(kids: seq<Tree>, d: Direction, i: nat, j: nat, n: int, across: int)
    requires Movable(kids, d, i, j, n, across)
    ensures var u := Move(kids, d, i, j, n, across);
            Row(u, d, across) && Grown(kids, u, d, i, n, across)
            && OthersCheck(u, d, i) == OthersCheck(kids, d, i) - n
  {
    hide Row;
    MoveFacts(kids, d, i, j, n, across);
    MoveConserves(kids, d, i, j, n, across);
    MoveChecks(kids, d, i, j, n, across);
  }

  lemma MoveShrinks(kids: seq<Tree>, d: Direction, i: nat, j: nat, n: int, across: int)
    requires j <= i && Movable(kids, d, i + 1, j, n, across)
    ensures var u := Move(kids, d, i + 1, j, n, across);
            Row(u, d, across) && Shrunk(kids, u, d, i, n, across)
            && HeadCheck(u, d, i) == HeadCheck(kids, d, i) - n
  {
    hide Row;
    MoveFacts(kids, d, i + 1, j, n, across);
    MoveConserves(kids, d, i + 1, j, n, across);
    MoveHead(kids, d, i, j, n, across);
  }

  /** One turn of the growing loop, given the effect of the turns after it. */
  lemma GrowTurn(kids: seq<Tree>, d: Direction, i: nat, needed: int, across: int, j: nat, n: int, r: seq<Tree>)
    requires Movable(kids, d, i, j, n, across) && n == Min(Check(kids[j], d), needed)
    requires var u := Move(kids, d, i, j, n, across);
             Grown(u, r, d, i, Min(needed - n, OthersCheck(u, d, i)), across)
    ensures Grown(kids, r, d, i, Min(needed, OthersCheck(kids, d, i)), across)
  {
    var u := Move(kids, d, i, j, n, across);
    MoveGrows(kids, d, i, j, n, across);
    NoOthers(kids, d, i);
    hide Grown, Row, Movable, Move, Check, OthersCheck;
    GrownTransitive(kids, u, r, d, i, n, Min(needed - n, OthersCheck(u, d, i)), across);
  }

  lemma GrowUnfold(kids: seq<Tree>, d: Direction, i: nat, needed: int, across: int)
    returns (j: nat, n: int)
    requires i < |kids| && Row(kids, d, across) && needed > 0 && GrowDonor(kids, d, i) != -1
    ensures j == GrowDonor(kids, d, i)
    ensures Movable(kids, d, i, j, n, across) && 0 < n <= needed && n == Min(Check(kids[j], d), needed)
    ensures var u := Move(kids, d, i, j, n, across);
            Row(u, d, across) && GrowKid(kids, d, i, needed, across) == GrowKid(u, d, i, needed - n, across)
  {
    hide Sound, Adjust, Check, Checks, Panes, DonorAfter, DonorBefore;
    j := GrowDonor(kids, d, i);
    n := Min(Check(kids[j], d), needed);
    MoveFacts(kids, d, i, j, n, across);
  }

  lemma NoTurns(kids: seq<Tree>, d: Direction, i: nat, needed: int, across: int)
    requires i < |kids| && Row(kids, d, across) && needed >= 0
    ensures needed == 0 || GrowDonor(kids, d, i) == -1 ==> GrowKid(kids, d, i, needed, across) == kids
    ensures i + 1 < |kids| && (needed == 0 || DonorBefore(kids, d, i + 1) == -1) ==>
              ShrinkKid(kids, d, i, needed, across) == kids
  {}

  /** Growing child i adds exactly the smaller of the change and what the
      other children can give, out of the other children. */
  lemma {:induction false} GrowExactly(kids: seq<Tree>, d: Direction, i: nat, needed: int, across: int)
    requires i < |kids| && Row(kids, d, across) && needed >= 0
    ensures Grown(kids, GrowKid(kids, d, i, needed, across), d, i, Min(needed, OthersCheck(kids, d, i)), across)
    decreases needed
  {
    hide DonorAfter, DonorBefore, Sound, Adjust, Checks, Panes, Conserved;
    if needed == 0 || GrowDonor(kids, d, i) == -1 {
      GrowDone(kids, d, i, needed, across);
    } else {
      hide GrowKid, Grown, Row, Movable, Move, Check, OthersCheck;
      var j, n := GrowUnfold(kids, d, i, needed, across);
      GrowExactly(Move(kids, d, i, j, n, across), d, i, needed - n, across);
      GrowTurn(kids, d, i, needed, across, j, n, GrowKid(kids, d, i, needed, across));
    }
  }

  lemma GrowDone(kids: seq<Tree>, d: Direction, i: nat, needed: int, across: int)
    requires i < |kids| && Row(kids, d, across) && needed >= 0
    requires needed == 0 || GrowDonor(kids, d, i) == -1
    ensures Grown(kids, kids, d, i, Min(needed, OthersCheck(kids, d, i)), across)
  {
    NoOthers(kids, d, i);
  }

  lemma ShrinkDone(kids: seq<Tree>, d: Direction, i: nat, needed: int, across: int)
    requires i + 1 < |kids| && Row(kids, d, across) && needed >= 0
    requires needed == 0 || DonorBefore(kids, d, i + 1) == -1
    ensures Shrunk(kids, kids, d, i, Min(needed, HeadCheck(kids, d, i)), across)
  {
    NoHead(kids, d, i);
  }

  /** One turn of the shrinking loop, given the effect of the turns after it. */
  lemma ShrinkTurn(kids: seq<Tree>, d: Direction, i: nat, needed: int, across: int, j: nat, n: int, r: seq<Tree>)
    requires j <= i && Movable(kids, d, i + 1, j, n, across) && n == Min(Check(kids[j], d), needed)
    requires var u := Move(kids, d, i + 1, j, n, across);
             Shrunk(u, r, d, i, Min(needed - n, HeadCheck(u, d, i)), across)
    ensures Shrunk(kids, r, d, i, Min(needed, HeadCheck(kids, d, i)), across)
  {
    hide Shrunk, Check, HeadCheck, Sound, Inhabited, Adjust;
    var u := Move(kids, d, i + 1, j, n, across);
    MoveShrinks(kids, d, i, j, n, across);
    NoHead(kids, d, i);
    ShrunkTransitive(kids, u, r, d, i, n, Min(needed - n, HeadCheck(u, d, i)), across);
  }

  lemma ShrinkUnfold(kids: seq<Tree>, d: Direction, i: nat, needed: int, across: int)
    returns (j: nat, n: int)
    requires i + 1 < |kids| && Row(kids, d, across) && needed > 0 && DonorBefore(kids, d, i + 1) != -1
    ensures j == DonorBefore(kids, d, i + 1) && j <= i && Movable(kids, d, i + 1, j, n, across)
    ensures 0 < n <= needed && n == Min(Check(kids[j], d), needed)
    ensures var u := Move(kids, d, i + 1, j, n, across);
            Row(u, d, across) && ShrinkKid(kids, d, i, needed, across) == ShrinkKid(u, d, i, needed - n, across)
  {
    hide Sound, Adjust, Check, Checks, Panes, DonorBefore;
    j := DonorBefore(kids, d, i + 1);
    n := Min(Check(kids[j], d), needed);
    MoveFacts(kids, d, i + 1, j, n, across);
  }

  /** Shrinking at child i adds to the next child exactly the smaller of the
      change and what children 0 to i can give; later children are untouched. */
  lemma {:induction false} ShrinkExactly(kids: seq<Tree>, d: Direction, i: nat, needed: int, across: int)
    requires i + 1 < |kids| && Row(kids, d, across) && needed >= 0
    ensures Shrunk(kids, ShrinkKid(kids, d, i, needed, across), d, i, Min(needed, HeadCheck(kids, d, i)), across)
    decreases needed
  {
    hide DonorBefore, Sound, Adjust, Checks, Panes, Conserved;
    if needed == 0 || DonorBefore(kids, d, i + 1) == -1 {
      ShrinkDone(kids, d, i, needed, across);
    } else {
      hide ShrinkKid, Shrunk, Row, Movable, Move, Check, HeadCheck;
      var j, n := ShrinkUnfold(kids, d, i, needed, across);
      ShrinkExactly(Move(kids, d, i + 1, j, n, across), d, i, needed - n, across);
      ShrinkTurn(kids, d, i, needed, across, j, n, ShrinkKid(kids, d, i, needed, across));
    }
  }

  // ----- Who gives

  /** What a child has lost in size it gave out of its space. */
  ghost predicate Lent(was: Tree, now: Tree, d: Direction) {
    0 <= Size(was, d) - Size(now, d) == Check(was, d) - Check(now, d)
  }

  ghost predicate Smaller(kids: seq<Tree>, r: seq<Tree>, d: Direction, k: nat)
    requires k < |kids| == |r|
  {
    Size(r[k], d) < Size(kids[k], d)
  }

  /** Child i grew out of the children after it, nearest first, and only when
      they had nothing left out of those before it, nearest first. */
  ghost predicate TailFirst(kids: seq<Tree>, r: seq<Tree>, d: Direction, i: nat) {
    && |r| == |kids| && i < |kids|
    && (forall k :: 0 <= k < |kids| && k != i ==> Lent(kids[k], r[k], d))
    && (forall k, m :: i < m < k < |kids| && Smaller(kids, r, d, k) ==> Check(r[m], d) == 0)
    && (forall k, m :: 0 <= k < i < m < |kids| && Smaller(kids, r, d, k) ==> Check(r[m], d) == 0)
    && (forall k, m :: 0 <= k < m < i && Smaller(kids, r, d, k) ==> Check(r[m], d) == 0)
  }

  /** Child i + 1 grew out of children i to 0, nearest first. */
  ghost predicate HeadFirst(kids: seq<Tree>, r: seq<Tree>, d: Direction, i: nat) {
    && |r| == |kids| && i + 1 < |kids|
    && (forall k :: 0 <= k <= i ==> Lent(kids[k], r[k], d))
    && (forall k :: i + 1 < k < |kids| ==> Size(r[k], d) == Size(kids[k], d))
    && (forall k, m :: 0 <= k < m <= i && Smaller(kids, r, d, k) ==> Check(r[m], d) == 0)
  }

  lemma TailFirstTurn(kids: seq<Tree>, d: Direction, i: nat, j: nat, n: int, across: int, r: seq<Tree>)
    requires Movable(kids, d, i, j, n, across) && GrowDonor(kids, d, i) == j
    requires TailFirst(Move(kids, d, i, j, n, across), r, d, i)
    ensures TailFirst(kids, r, d, i)
  {
    hide Check, Sound, Adjust, Panes, Move, Row;
    var u := Move(kids, d, i, j, n, across);
    MoveFacts(kids, d, i, j, n, across);
    assert j > i ==> forall m :: i < m < j ==> Check(kids[m], d) == 0;
    assert j < i ==> forall m :: i < m < |kids| ==> Check(kids[m], d) == 0;
    assert j < i ==> forall m :: j < m < i ==> Check(kids[m], d) == 0;
    forall k | 0 <= k < |kids| && k != i ensures Lent(kids[k], r[k], d) {
      assert Lent(u[k], r[k], d);
    }
    forall k, m | 0 <= k < |kids| && 0 <= m < |kids| && k != i && m != i && Smaller(kids, r, d, k)
      ensures i < m < k || k < i < m || k < m < i ==> Check(r[m], d) == 0
    {
      assert Lent(u[m], r[m], d) && (Smaller(u, r, d, k) || k == j);
    }
  }

  lemma NobodyGave(kids: seq<Tree>, d: Direction, i: nat)
    ensures i < |kids| ==> TailFirst(kids, kids, d, i)
    ensures i + 1 < |kids| ==> HeadFirst(kids, kids, d, i)
  {
    hide Check;
  }

  lemma {:induction false} GrowTailFirst(kids: seq<Tree>, d: Direction, i: nat, needed: int, across: int)
    requires i < |kids| && Row(kids, d, across) && needed >= 0
    ensures TailFirst(kids, GrowKid(kids, d, i, needed, across), d, i)
    decreases needed
  {
    hide DonorAfter, DonorBefore, Sound, Adjust, Checks, Panes, GrowKid, TailFirst, Row, Movable, Move, Check;
    if needed == 0 || GrowDonor(kids, d, i) == -1 {
      NoTurns(kids, d, i, needed, across);
      NobodyGave(kids, d, i);
    } else {
      var j, n := GrowUnfold(kids, d, i, needed, across);
      GrowTailFirst(Move(kids, d, i, j, n, across), d, i, needed - n, across);
      TailFirstTurn(kids, d, i, j, n, across, GrowKid(kids, d, i, needed, across));
    }
  }

  lemma HeadFirstTurn(kids: seq<Tree>, d: Direction, i: nat, j: nat, n: int, across: int, r: seq<Tree>)
    requires Movable(kids, d, i + 1, j, n, across) && DonorBefore(kids, d, i + 1) == j
    requires HeadFirst(Move(kids, d, i + 1, j, n, across), r, d, i)
    ensures HeadFirst(kids, r, d, i)
  {
    hide Check, Sound, Adjust, Panes, Move, Row;
    var u := Move(kids, d, i + 1, j, n, across);
    MoveFacts(kids, d, i + 1, j, n, across);
    assert forall m :: j < m <= i ==> Check(kids[m], d) == 0;
    forall k | 0 <= k <= i ensures Lent(kids[k], r[k], d) {
      assert Lent(u[k], r[k], d);
    }
    forall k, m | 0 <= k < m <= i && Smaller(kids, r, d, k) ensures Check(r[m], d) == 0 {
      assert Lent(u[m], r[m], d) && (Smaller(u, r, d, k) || k == j);
    }
  }

  lemma {:induction false} ShrinkHeadFirst(kids: seq<Tree>, d: Direction, i: nat, needed: int, across: int)
    requires i + 1 < |kids| && Row(kids, d, across) && needed >= 0
    ensures HeadFirst(kids, ShrinkKid(kids, d, i, needed, across), d, i)
    decreases needed
  {
    hide DonorBefore, Sound, Adjust, Checks, Panes, ShrinkKid, HeadFirst, Row, Movable, Move, Check;
    if needed == 0 || DonorBefore(kids, d, i + 1) == -1 {
      NoTurns(kids, d, i, needed, across);
      NobodyGave(kids, d, i);
    } else {
      var j, n := ShrinkUnfold(kids, d, i, needed, across);
      ShrinkHeadFirst(Move(kids, d, i + 1, j, n, across), d, i, needed - n, across);
      HeadFirstTurn(kids, d, i, j, n, across, ShrinkKid(kids, d, i, needed, across));
    }
  }

  // ----- The whole operation

  /** Length of the path to the nearest enclosing container along d; -1 when
      there is none. */
  function Anchor(t: Tree, p: Path, d: Direction): (k: int)
    requires IsPath(t, p)
    ensures -1 <= k < |p|
    ensures k >= 0 ==> IsPath(t, p[..k]) && At(t, p[..k]).Node? && At(t, p[..k]).dir == d
                       && p[k] < |At(t, p[..k]).kids|
  {
    AnchorFrom(t, p, d, |p|)
  }

  function AnchorFrom(t: Tree, p: Path, d: Direction, n: nat): (k: int)
    requires IsPath(t, p) && n <= |p|
    ensures -1 <= k < n
    ensures k >= 0 ==> IsPath(t, p[..k]) && At(t, p[..k]).Node? && At(t, p[..k]).dir == d
                       && p[k] < |At(t, p[..k]).kids|
    ensures forall m :: k < m < n ==> IsPath(t, p[..m]) && At(t, p[..m]).Node? && At(t, p[..m]).dir != d
  {
    if n == 0 then -1
    else
      PathPrefix(t, p, n - 1);
      if At(t, p[..n - 1]).dir == d then n - 1 else AnchorFrom(t, p, d, n - 1)
  }

  /** The child resized: the one on the path, or the one before it when that
      is the last. */
  function Target(kids: seq<Tree>, i: nat): (j: nat)
    requires i < |kids| && |kids| >= 2
    ensures j + 1 < |kids|
  {
    if i == |kids| - 1 then i - 1 else i
  }

  ghost function ResizedKids(c: Tree, i: nat, change: int): (r: seq<Tree>)
    requires c.Node? && i < |c.kids| && |c.kids| >= 2 && Row(c.kids, c.dir, Size(c, Other(c.dir)))
    ensures |r| == |c.kids|
  {
    var j, across := Target(c.kids, i), Size(c, Other(c.dir));
    if change >= 0 then GrowKid(c.kids, c.dir, j, change, across)
    else ShrinkKid(c.kids, c.dir, j, -change, across)
  }

  lemma SoundRow(c: Tree)
    requires Sound(c) && c.Node?
    ensures Row(c.kids, c.dir, Size(c, Other(c.dir))) && |c.kids| >= 2
  {
    assert Fits(c, Other(c.dir));
  }

  /** layout_resize_pane for the pane of the leaf at p, offsets included. */
  ghost function ResizePane(t: Tree, p: Path, d: Direction, change: int): Tree
    requires IsPath(t, p) && Sound(t)
  {
    var k := Anchor(t, p, d);
    if k == -1 then t
    else
      AtKeeps(t, p[..k]);
      var c := At(t, p[..k]);
      SoundRow(c);
      FixOffsets(Replace(t, p[..k], c.(kids := ResizedKids(c, p[k], change))))
  }

  lemma RowConserved(c: Tree, r: seq<Tree>)
    requires c.Node? && Sound(c) && Conserved(c.kids, r, c.dir, Size(c, Other(c.dir)))
    ensures Sound(c.(kids := r))
    ensures forall e :: Check(c.(kids := r), e) <= Check(c, e)
    ensures PanesAll(r) == PanesAll(c.kids)
  {
    assert Sound(c.(kids := r)) by {
      CloseFits(c, r);
    }
    assert Checks(r, Other(c.dir)) == Checks(c.kids, Other(c.dir));
    forall e ensures Check(c.(kids := r), e) <= Check(c, e) {
      assert e == c.dir || e == Other(c.dir);
    }
    SamePanes(c.kids, r);
  }

  lemma {:induction false} SamePanes(kids: seq<Tree>, r: seq<Tree>)
    requires |r| == |kids| && forall i :: 0 <= i < |r| ==> Panes(r[i]) == Panes(kids[i])
    ensures PanesAll(r) == PanesAll(kids)
  {
    if kids != [] { SamePanes(kids[1..], r[1..]); }
  }

  lemma ResizedKidsConserved(c: Tree, i: nat, change: int)
    requires c.Node? && Sound(c) && i < |c.kids|
    ensures |c.kids| >= 2 && Row(c.kids, c.dir, Size(c, Other(c.dir)))
    ensures Conserved(c.kids, ResizedKids(c, i, change), c.dir, Size(c, Other(c.dir)))
  {
    SoundRow(c);
    var j, across := Target(c.kids, i), Size(c, Other(c.dir));
    if change >= 0 {
      GrowExactly(c.kids, c.dir, j, change, across);
    } else {
      ShrinkExactly(c.kids, c.dir, j, -change, across);
    }
  }

  /** Resizing a pane keeps the tree sound and placed, its root size and the
      order of panes, and never adds to the space a resize may take. */
  lemma ResizePaneKeeps(t: Tree, p: Path, d: Direction, change: int)
    requires IsPath(t, p) && Sound(t) && Placed(t)
    ensures var r := ResizePane(t, p, d, change);
            && Sound(r) && Placed(r) && r.sx == t.sx && r.sy == t.sy && r.xoff == t.xoff && r.yoff == t.yoff
            && Panes(r) == Panes(t) && forall e :: Check(r, e) <= Check(t, e)
  {
    var k := Anchor(t, p, d);
    if k >= 0 {
      AtKeeps(t, p[..k]);
      var c := At(t, p[..k]);
      ResizedKidsConserved(c, p[k], change);
      var s := c.(kids := ResizedKids(c, p[k], change));
      RowConserved(c, s.kids);
      ReplaceTiled(t, p[..k], s);
      ReplaceBranching(t, p[..k], s);
      var u := Replace(t, p[..k], s);
      var a, b := ReplacePanes(t, p[..k], s);
      PutKeepsAll(u, u.xoff, u.yoff);
      PutPanes(u, u.xoff, u.yoff);
      forall e ensures Check(FixOffsets(u), e) <= Check(t, e) {
        ReplaceCheck(t, p[..k], s, e);
        PutFits(u, u.xoff, u.yoff, e);
      }
    }
  }

  // ----- The whole tree

  lemma ResizedKidsExactly(c: Tree, i: nat, change: int)
    requires c.Node? && Sound(c) && i < |c.kids|
    ensures |c.kids| >= 2 && Row(c.kids, c.dir, Size(c, Other(c.dir)))
    ensures var r, j, d := ResizedKids(c, i, change), Target(c.kids, i), c.dir;
            && Sum(Sizes(r, d)) == Sum(Sizes(c.kids, d))
            && (change >= 0 ==> Size(r[j], d) == Size(c.kids[j], d) + Min(change, OthersCheck(c.kids, d, j)))
            && (change < 0 ==> Size(r[j + 1], d) == Size(c.kids[j + 1], d) + Min(-change, HeadCheck(c.kids, d, j)))
            && (if change >= 0 then TailFirst(c.kids, r, d, j) else HeadFirst(c.kids, r, d, j))
  {
    SoundRow(c);
    var j, across := Target(c.kids, i), Size(c, Other(c.dir));
    hide Sound, TailFirst, HeadFirst;
    if change >= 0 {
      GrowExactly(c.kids, c.dir, j, change, across);
      GrowTailFirst(c.kids, c.dir, j, change, across);
    } else {
      ShrinkExactly(c.kids, c.dir, j, -change, across);
      ShrinkHeadFirst(c.kids, c.dir, j, -change, across);
    }
  }

  /** The laws above speak of sizes and space along d only. */
  lemma SameLaws(kids: seq<Tree>, r: seq<Tree>, now: seq<Tree>, d: Direction, i: nat)
    requires |now| == |r|
    requires forall k :: 0 <= k < |r| ==> Size(now[k], d) == Size(r[k], d) && Check(now[k], d) == Check(r[k], d)
    ensures TailFirst(kids, r, d, i) ==> TailFirst(kids, now, d, i)
    ensures HeadFirst(kids, r, d, i) ==> HeadFirst(kids, now, d, i)
  {
    hide Check;
    if |kids| == |r| {
      assert forall k :: 0 <= k < |r| ==> Smaller(kids, now, d, k) == Smaller(kids, r, d, k);
    }
  }

  /** The container at p[..k] is the innermost one around p that runs along d. */
  predicate Innermost(t: Tree, p: Path, d: Direction, k: nat) {
    && IsPath(t, p) && k < |p| && Along(t, p, d, k)
    && forall m :: k < m < |p| ==> !Along(t, p, d, m)
  }

  predicate Along(t: Tree, p: Path, d: Direction, k: nat)
    requires IsPath(t, p) && k < |p|
  {
    PathPrefix(t, p, k);
    At(t, p[..k]).dir == d
  }

  lemma AnchorIs(t: Tree, p: Path, d: Direction)
    requires IsPath(t, p)
    ensures Anchor(t, p, d) >= 0 ==> Innermost(t, p, d, Anchor(t, p, d))
    ensures Anchor(t, p, d) == -1 ==> forall k :: 0 <= k < |p| ==> !Along(t, p, d, k)
  {
    var k := AnchorFrom(t, p, d, |p|);
  }

  /** In no container that runs along d nothing can be resized. */
  lemma ResizePaneNone(t: Tree, p: Path, d: Direction, change: int)
    requires IsPath(t, p) && Sound(t) && forall k :: 0 <= k < |p| ==> !Along(t, p, d, k)
    ensures ResizePane(t, p, d, change) == t
  {
    AnchorIs(t, p, d);
  }

  /** The container found, and what stands in its place afterwards. */
  lemma ResizedPlace(t: Tree, p: Path, d: Direction, change: int, k: nat)
    requires Sound(t) && Innermost(t, p, d, k)
    ensures IsPath(t, p) && k == Anchor(t, p, d) && IsPath(t, p[..k])
    ensures var c := At(t, p[..k]);
            c.Node? && c.dir == d && Sound(c) && p[k] < |c.kids| && |c.kids| >= 2
            && Row(c.kids, d, Size(c, Other(d)))
            && ResizePane(t, p, d, change) == FixOffsets(Replace(t, p[..k], c.(kids := ResizedKids(c, p[k], change))))
  {
    AnchorIs(t, p, d);
    AtKeeps(t, p[..k]);
    SoundRow(At(t, p[..k]));
  }

  lemma ResizePaneElsewhere(t: Tree, p: Path, d: Direction, change: int, k: nat, m: Path)
    requires Sound(t) && Innermost(t, p, d, k) && IsPath(t, m) && !(p[..k] < m)
    ensures var r := ResizePane(t, p, d, change);
            IsPath(r, m) && At(r, m).sx == At(t, m).sx && At(r, m).sy == At(t, m).sy
  {
    hide Sound, ResizedKids, ResizePane, Innermost, Row;
    ResizedPlace(t, p, d, change, k);
    var q := p[..k];
    var s := At(t, q).(kids := ResizedKids(At(t, q), p[k], change));
    var u := Replace(t, q, s);
    ReplaceAt(t, q, s);
    ReplaceElsewhere(t, q, s, m);
    var x, y := PutAt(u, m, u.xoff, u.yoff);
  }

  lemma PlacedKids(u: Tree, q: Path)
    requires IsPath(u, q) && At(u, q).Node?
    ensures var s, r := At(u, q), FixOffsets(u);
            && IsPath(r, q) && At(r, q).Node? && At(r, q).dir == s.dir && |At(r, q).kids| == |s.kids|
            && forall i, e :: 0 <= i < |s.kids| ==>
                 Size(At(r, q).kids[i], e) == Size(s.kids[i], e) && Check(At(r, q).kids[i], e) == Check(s.kids[i], e)
  {
    hide Check;
    var s := At(u, q);
    var a, b := PutAt(u, q, u.xoff, u.yoff);
    forall e { PutAllFits(s.kids, s.dir, a, b, e); }
  }

  /** The container at p[..k] before and after: how much space has moved, to
      which child, and from which. The child is the one the pane is in, or the
      one before that when it is the last. */
  ghost predicate RowResized(t: Tree, r: Tree, p: Path, d: Direction, change: int, k: nat)
    requires Innermost(t, p, d, k)
  {
    var q := p[..k];
    && IsPath(t, q) && At(t, q).Node? && p[k] < |At(t, q).kids| && IsPath(r, q) && At(r, q).Node?
    && At(r, q).dir == At(t, q).dir == d && |At(r, q).kids| == |At(t, q).kids| >= 2
    && var was, now := At(t, q).kids, At(r, q).kids;
    var j := if p[k] == |was| - 1 then p[k] - 1 else p[k];
    && Sum(Sizes(now, d)) == Sum(Sizes(was, d))
    && (change >= 0 ==>
          && Size(now[j], d) == Size(was[j], d) + Min(change, OthersCheck(was, d, j))
          && TailFirst(was, now, d, j))
    && (change < 0 ==>
          && Size(now[j + 1], d) == Size(was[j + 1], d) + Min(-change, HeadCheck(was, d, j))
          && HeadFirst(was, now, d, j))
  }

  /** No cell has another size, but for those inside the cell at q. */
  ghost predicate OnlyInside(t: Tree, r: Tree, q: Path) {
    forall m :: IsPath(t, m) && !(q < m) ==> IsPath(r, m) && At(r, m).sx == At(t, m).sx && At(r, m).sy == At(t, m).sy
  }

  lemma ResizePaneRow(t: Tree, p: Path, d: Direction, change: int, k: nat)
    requires Sound(t) && Innermost(t, p, d, k)
    ensures RowResized(t, ResizePane(t, p, d, change), p, d, change, k)
  {
    hide TailFirst, HeadFirst, OthersCheck, HeadCheck, Check, Sound, ResizedKids, ResizePane, Innermost, Row, Put, Replace, Panes;
    ResizedPlace(t, p, d, change, k);
    var q := p[..k];
    var c := At(t, q);
    ResizedKidsExactly(c, p[k], change);
    var s := c.(kids := ResizedKids(c, p[k], change));
    ReplaceAt(t, q, s);
    PlacedKids(Replace(t, q, s), q);
    var now := At(ResizePane(t, p, d, change), q).kids;
    assert Sizes(now, d) == Sizes(s.kids, d);
    SameLaws(c.kids, s.kids, now, d, Target(c.kids, p[k]));
  }

  /** The space a pane resize moves in the innermost container along d around
      the pane, and that nothing outside that changes size. */
  lemma ResizePaneExactly(t: Tree, p: Path, d: Direction, change: int, k: nat)
    requires Sound(t) && Innermost(t, p, d, k)
    ensures IsPath(t, p) && RowResized(t, ResizePane(t, p, d, change), p, d, change, k)
    ensures OnlyInside(t, ResizePane(t, p, d, change), p[..k])
  {
    hide RowResized, Sound, ResizePane, Innermost;
    ResizedPlace(t, p, d, change, k);
    ResizePaneRow(t, p, d, change, k);
    forall m | IsPath(t, m) && !(p[..k] < m)
      ensures var r := ResizePane(t, p, d, change);
              IsPath(r, m) && At(r, m).sx == At(t, m).sx && At(r, m).sy == At(t, m).sy
    {
      ResizePaneElsewhere(t, p, d, change, k, m);
    }
  }
}
