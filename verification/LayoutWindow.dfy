// A window and its layout over whole runs: layout_init, splits with pane
// assignment, closes, pane resizes and window resizes (layout_resize).
module LayoutWindow {
  import opened Common
  import opened LayoutTree
  import opened LayoutAdjust
  import opened LayoutOffsets
  import opened LayoutPaths
  import opened LayoutPlaced
  import opened LayoutSplit
  import opened LayoutClose
  import opened LayoutResizePane

  datatype Window = Window(sx: int, sy: int, root: Tree)

  function Extent(w: Window, d: Direction): int {
    if d == LeftRight then w.sx else w.sy
  }

  function Init(sx: int, sy: int, id: PaneId): Window {
    Window(sx, sy, Leaf(sx, sy, 0, 0, Some(id)))
  }

  // ----- layout_resize

  /** The change layout_resize makes to the root along one axis. */
  function Change(root: Tree, d: Direction, was: int, now: int): int {
    var limit := Check(root, d);
    if limit == 0 then (if now <= Size(root, d) then 0 else now - Size(root, d))
    else if now - was < 0 && now - was < -limit then -limit
    else now - was
  }

  ghost function ResizeAxis(root: Tree, d: Direction, was: int, now: int): Tree
    requires Inhabited(root)
  {
    Adjust(root, d, Change(root, d, was, now))
  }

  lemma AdjustNothing(t: Tree, d: Direction)
    requires Inhabited(t)
    ensures Adjust(t, d, 0) == t
  {
    if t.Node? && t.dir != d {
      forall i | 0 <= i < |t.kids| ensures Adjust(t.kids[i], d, 0) == t.kids[i] {
        AdjustNothing(t.kids[i], d);
      }
      assert Adjust(t, d, 0).kids == t.kids;
    }
  }

  ghost function ResizeTree(w: Window, sx: int, sy: int): Tree
    requires Inhabited(w.root)
  {
    var a := ResizeAxis(w.root, LeftRight, w.sx, sx);
    AdjustAdjusts(w.root, LeftRight, Change(w.root, LeftRight, w.sx, sx));
    FixOffsets(ResizeAxis(a, TopBottom, w.sy, sy))
  }

  lemma ResizeTreeIs(w: Window, sx: int, sy: int)
    requires Sound(w.root)
    ensures var a := ResizeAxis(w.root, LeftRight, w.sx, sx);
            Sound(a) && ResizeTree(w, sx, sy) == FixOffsets(ResizeAxis(a, TopBottom, w.sy, sy))
  {
    AdjustFacts(w.root, LeftRight, Change(w.root, LeftRight, w.sx, sx));
  }

  /** One axis: the root is never left shorter than the new window, and if it
      was exact or had no space left it is exact again or has none left. */
  lemma AxisResized(root: Tree, d: Direction, was: int, now: int)
    requires Sound(root) && Size(root, d) >= was
    ensures var r := ResizeAxis(root, d, was, now);
            && Sound(r) && Panes(r) == Panes(root)
            && Size(r, d) >= now && Size(r, Other(d)) == Size(root, Other(d))
            && Check(r, Other(d)) == Check(root, Other(d))
            && (Size(root, d) == was || Check(root, d) == 0 ==> Size(r, d) == now || Check(r, d) == 0)
  {
    AdjustFacts(root, d, Change(root, d, was, now));
  }

  /** layout_resize keeps the tree sound and its panes, and covers the window;
      an exact or minimal layout becomes exact or minimal for the new size. */
  lemma ResizeKeeps(w: Window, sx: int, sy: int)
    requires Sound(w.root) && w.root.sx >= w.sx && w.root.sy >= w.sy
    ensures var r := ResizeTree(w, sx, sy);
            && Sound(r) && Placed(r) && Panes(r) == Panes(w.root)
            && r.sx >= sx && r.sy >= sy && r.xoff == w.root.xoff && r.yoff == w.root.yoff
            && (Exact(w) ==> Exact(Window(sx, sy, r)))
  {
    var a := ResizeAxis(w.root, LeftRight, w.sx, sx);
    AxisResized(w.root, LeftRight, w.sx, sx);
    AxisResized(a, TopBottom, w.sy, sy);
    var b := ResizeAxis(a, TopBottom, w.sy, sy);
    PutKeepsAll(b, b.xoff, b.yoff);
    PutPanes(b, b.xoff, b.yoff);
    PutFits(b, b.xoff, b.yoff, LeftRight);
    PutFits(b, b.xoff, b.yoff, TopBottom);
    AdjustOffsets(w.root, LeftRight, Change(w.root, LeftRight, w.sx, sx));
    AdjustOffsets(a, TopBottom, Change(a, TopBottom, w.sy, sy));
  }

  lemma AdjustOffsets(t: Tree, d: Direction, change: int)
    requires Inhabited(t) && change >= -Check(t, d)
    ensures Adjust(t, d, change).xoff == t.xoff && Adjust(t, d, change).yoff == t.yoff
  {}

  // ----- Runs

  // Leaves are named by their paths; a pane and its leaf determine each other.
  datatype Op =
    | Split(p: Path, d: Direction, hint: int, before: bool, id: PaneId)
    | Close(p: Path)
    | ResizePane(p: Path, d: Direction, change: int)
    | Resize(sx: int, sy: int)

  /** The operation can be asked for: a leaf that exists, a pane id not in use,
      and never the last pane. */
  ghost predicate Enabled(w: Window, op: Op) {
    match op
    case Split(p, _, _, _, id) => IsPath(w.root, p) && At(w.root, p).Leaf? && Some(id) !in Panes(w.root)
    case Close(p) => IsPath(w.root, p) && At(w.root, p).Leaf? && p != []
    case ResizePane(p, _, _) => IsPath(w.root, p) && At(w.root, p).Leaf?
    case Resize(_, _) => true
  }

  ghost function Step(w: Window, op: Op): Window
    requires Sound(w.root) && Enabled(w, op)
  {
    match op
    case Split(p, d, hint, before, id) =>
      (match SplitAssign(w.root, p, d, hint, before, id)
       case None => w
       case Some(r) => w.(root := r))
    case Close(p) => w.(root := CloseTree(w.root, p))
    case ResizePane(p, d, change) => w.(root := LayoutResizePane.ResizePane(w.root, p, d, change))
    case Resize(sx, sy) => Window(sx, sy, ResizeTree(w, sx, sy))
  }

  ghost predicate Distinct<T(!new)>(s: seq<T>) {
    forall i, j :: 0 <= i < j < |s| ==> s[i] != s[j]
  }

  /** Every leaf holds a pane and no pane is in two leaves. */
  ghost predicate OneLeafPerPane(t: Tree) {
    Distinct(Panes(t)) && None !in Panes(t)
  }

  ghost predicate Covers(w: Window) {
    w.root.sx >= w.sx && w.root.sy >= w.sy
  }

  /** On each axis the layout is the window's size or cannot be smaller. */
  ghost predicate Exact(w: Window) {
    forall d :: Size(w.root, d) == Extent(w, d) || Check(w.root, d) == 0
  }

  ghost predicate Invariant(w: Window) {
    && Sound(w.root) && Placed(w.root) && w.root.xoff == 0 && w.root.yoff == 0
    && OneLeafPerPane(w.root) && Covers(w)
  }

  lemma SplitAssignKeeps(t: Tree, p: Path, d: Direction, hint: int, before: bool, id: PaneId)
    requires IsPath(t, p) && At(t, p).Leaf? && CanSplit(At(t, p), d) && Sound(t) && Placed(t)
    ensures var r := SplitAssign(t, p, d, hint, before, id).value;
            Sound(r) && Placed(r) && r.sx == t.sx && r.sy == t.sy && r.xoff == t.xoff && r.yoff == t.yoff
            && forall e :: Check(r, e) <= Check(t, e)
  {
    SplitKeeps(t, p, d, hint, before);
    SplitPlaced(t, p, d, hint, before);
    NewCellPath(t, p, d, hint, before);
    var (u, q) := SplitTree(t, p, d, hint, before).value;
    var lc := At(u, q).(wp := Some(id));
    hide Sound, Tiled, Positive, Branching;
    AssignSound(u, q, lc);
    forall e ensures Check(Replace(u, q, lc), e) <= Check(t, e) {
      ReplaceCheck(u, q, lc, e);
    }
  }

  lemma AssignSound(u: Tree, q: Path, lc: Tree)
    requires IsPath(u, q) && At(u, q).Leaf? && lc.Leaf? && lc == At(u, q).(wp := lc.wp) && Sound(u) && Placed(u)
    ensures Inhabited(u)
    ensures var r := Replace(u, q, lc);
            Sound(r) && Placed(r) && r.sx == u.sx && r.sy == u.sy && r.xoff == u.xoff && r.yoff == u.yoff
    ensures forall e :: Check(lc, e) == Check(At(u, q), e)
  {
    AtKeeps(u, q);
    ReplaceTiled(u, q, lc);
    ReplaceBranching(u, q, lc);
    ReplacePlaced(u, q, lc);
  }

  lemma DistinctInsert(pre: seq<Option<PaneId>>, wp: Option<PaneId>, post: seq<Option<PaneId>>, before: bool, id: PaneId)
    requires Distinct(pre + [wp] + post) && Some(id) !in pre + [wp] + post && None !in pre + [wp] + post
    ensures Distinct(pre + NewPanes(wp, before, id) + post) && None !in pre + NewPanes(wp, before, id) + post
  {
    var s, r := pre + [wp] + post, pre + NewPanes(wp, before, id) + post;
    var n := if before then |pre| else |pre| + 1;
    forall i | 0 <= i < |r| && i != n ensures r[i] == s[if i < n then i else i - 1] {}
    forall i, j | 0 <= i < j < |r| ensures r[i] != r[j] {
      if i != n && j != n {
        assert r[i] == s[if i < n then i else i - 1] && r[j] == s[if j < n then j else j - 1];
      }
    }
  }

  lemma DistinctRemove(pre: seq<Option<PaneId>>, wp: Option<PaneId>, post: seq<Option<PaneId>>)
    requires Distinct(pre + [wp] + post) && None !in pre + [wp] + post
    ensures Distinct(pre + post) && None !in pre + post
  {
    var s, r := pre + [wp] + post, pre + post;
    forall i | 0 <= i < |r| ensures r[i] == s[if i < |pre| then i else i + 1] {}
  }

  /** One operation keeps the invariant; unless it is a close it also keeps an
      exact or minimal layout exact or minimal. */
  lemma StepKeeps(w: Window, op: Op)
    requires Invariant(w) && Enabled(w, op)
    ensures Invariant(Step(w, op))
    ensures !op.Close? && Exact(w) ==> Exact(Step(w, op))
  {
    var t := w.root;
    match op
    case Split(p, d, hint, before, id) =>
      if CanSplit(At(t, p), d) {
        SplitAssignKeeps(t, p, d, hint, before, id);
        var pre, post := SplitPanes(t, p, d, hint, before, id);
        DistinctInsert(pre, At(t, p).wp, post, before, id);
      }
    case Close(p) =>
      CloseKeeps(t, p);
      var pre, post := ClosePanes(t, p);
      DistinctRemove(pre, At(t, p).wp, post);
    case ResizePane(p, d, change) => ResizePaneKeeps(t, p, d, change);
    case Resize(sx, sy) => ResizeKeeps(w, sx, sy);
  }

  ghost predicate RunEnabled(w: Window, ops: seq<Op>)
    requires Invariant(w)
    decreases |ops|
  {
    ops == [] ||
    (Enabled(w, ops[0]) && (StepKeeps(w, ops[0]); RunEnabled(Step(w, ops[0]), ops[1..])))
  }

  ghost function Run(w: Window, ops: seq<Op>): (r: Window)
    requires Invariant(w) && RunEnabled(w, ops)
    ensures Invariant(r)
    ensures Exact(w) && (forall i :: 0 <= i < |ops| ==> !ops[i].Close?) ==> Exact(r)
    decreases |ops|
  {
    if ops == [] then w
    else
      StepKeeps(w, ops[0]);
      Run(Step(w, ops[0]), ops[1..])
  }

  lemma InitInvariant(sx: int, sy: int, id: PaneId)
    requires sx >= 1 && sy >= 1
    ensures Invariant(Init(sx, sy, id)) && Exact(Init(sx, sy, id))
  {}

  /** Every run from a fresh window: the layout stays tiled, with two children
      or more in each container, every leaf at least one cell each way, placed
      from (0, 0), one leaf per pane, and covers the window on both axes; while
      nothing is closed it fits exactly or cannot be made smaller. */
  lemma EveryRun(sx: int, sy: int, id: PaneId, ops: seq<Op>)
    requires sx >= 1 && sy >= 1
    ensures Invariant(Init(sx, sy, id))
    ensures RunEnabled(Init(sx, sy, id), ops) ==>
              var w := Run(Init(sx, sy, id), ops);
              Invariant(w) && ((forall i :: 0 <= i < |ops| ==> !ops[i].Close?) ==> Exact(w))
  {
    InitInvariant(sx, sy, id);
  }

  // ----- Filling the window exactly

  lemma AxisFitsIff(root: Tree, d: Direction, was: int, now: int)
    requires Sound(root) && now >= Size(root, d) >= was
    ensures Size(ResizeAxis(root, d, was, now), d) == now <==> Size(root, d) == was || Check(root, d) == 0
  {
    AdjustFacts(root, d, Change(root, d, was, now));
  }

  /** A window made at least as large as its layout is filled exactly if and
      only if the layout was exact or minimal before, on both axes. */
  lemma FitsIff(w: Window, sx: int, sy: int)
    requires Invariant(w) && sx >= w.root.sx && sy >= w.root.sy
    ensures var r := Step(w, Resize(sx, sy)).root;
            r.sx == sx && r.sy == sy <==> Exact(w)
  {
    hide Tiled, Branching, LayoutOffsets.Positive, Placed, OneLeafPerPane, Check, ResizeAxis, Put;
    InvariantInhabited(w);
    var a := ResizeAxis(w.root, LeftRight, w.sx, sx);
    AxisFitsIff(w.root, LeftRight, w.sx, sx);
    AxisResized(w.root, LeftRight, w.sx, sx);
    AxisFitsIff(a, TopBottom, w.sy, sy);
    AxisResized(a, TopBottom, w.sy, sy);
    ResizeTreeIs(w, sx, sy);
    BothAxes(w);
  }

  lemma InvariantInhabited(w: Window)
    requires Invariant(w)
    ensures Inhabited(w.root)
  {}

  lemma BothAxes(w: Window)
    ensures Exact(w) <==>
            (w.root.sx == w.sx || Check(w.root, LeftRight) == 0) && (w.root.sy == w.sy || Check(w.root, TopBottom) == 0)
  {}

  /** So while nothing is closed, a window made large enough for the layout
      shows it at exactly the window's size. */
  lemma FitsAgain(sx: int, sy: int, id: PaneId, ops: seq<Op>, sx': int, sy': int)
    requires sx >= 1 && sy >= 1 && Invariant(Init(sx, sy, id)) && RunEnabled(Init(sx, sy, id), ops)
    requires forall i :: 0 <= i < |ops| ==> !ops[i].Close?
    requires var w := Run(Init(sx, sy, id), ops); sx' >= w.root.sx && sy' >= w.root.sy
    ensures var w := Run(Init(sx, sy, id), ops);
            var r := Step(w, Resize(sx', sy')).root;
            r.sx == sx' && r.sy == sy'
  {
    InitInvariant(sx, sy, id);
    FitsIff(Run(Init(sx, sy, id), ops), sx', sy');
  }

  // ----- Closes and the fit

  /** On an axis where the layout covers the window, a resize leaves it exact
      or minimal just when it was so before or the shrink uses up all space. */
  lemma AxisExactIff(root: Tree, d: Direction, was: int, now: int)
    requires Sound(root) && Size(root, d) >= was
    ensures var r := ResizeAxis(root, d, was, now);
            (Size(r, d) == now || Check(r, d) == 0) <==>
            (Size(root, d) == was || Check(root, d) == 0 || now - was <= -Check(root, d))
  {
    AdjustFacts(root, d, Change(root, d, was, now));
  }

  // Two panes side by side that cannot be made narrower.
  const SQUEEZED :=
    Node(LeftRight, 5, 5, 0, 0, [Leaf(2, 5, 0, 0, Some(0)), Leaf(2, 5, 3, 0, Some(1))])

  // One of them, in a window narrower than that.
  const WIDE := Window(3, 5, Leaf(5, 5, 0, 0, Some(1)))

  lemma SqueezedSound()
    ensures Invariant(Window(5, 5, SQUEEZED)) && Invariant(Window(3, 5, SQUEEZED))
    ensures Init(5, 5, 0).root == Leaf(5, 5, 0, 0, Some(0))
    ensures Enabled(Init(5, 5, 0), Split([], LeftRight, -1, false, 1))
    ensures Step(Init(5, 5, 0), Split([], LeftRight, -1, false, 1)) == Window(5, 5, SQUEEZED)
  {
    var w := Init(5, 5, 0);
    InitInvariant(5, 5, 0);
    assert Panes(w.root) == [Some(0)];
    var s, i := AssignedContainer(w.root, [], LeftRight, -1, false, 1);
    assert s == SQUEEZED;
    StepKeeps(w, Split([], LeftRight, -1, false, 1));
  }

  lemma SqueezedShrink()
    requires Sound(SQUEEZED)
    ensures Step(Window(5, 5, SQUEEZED), Resize(3, 5)) == Window(3, 5, SQUEEZED)
  {
    hide OneLeafPerPane, Fits, Branching, LayoutOffsets.Positive, RoundRobin;
    assert Checks(SQUEEZED.kids, LeftRight) == [0, 0] && Checks(SQUEEZED.kids, TopBottom) == [3, 3];
    SumPair(0, 0);
    LeastIsMinimum([3, 3], UINT_MAX);
    AdjustNothing(SQUEEZED, LeftRight);
    AdjustNothing(SQUEEZED, TopBottom);
    SqueezedSound();
  }

  lemma SqueezedClose()
    requires Sound(SQUEEZED)
    ensures Enabled(Window(3, 5, SQUEEZED), Close([0]))
    ensures Step(Window(3, 5, SQUEEZED), Close([0])) == WIDE
  {
    assert [0][1..] == [];
    assert At(SQUEEZED, [0]) == SQUEEZED.kids[0];
    assert KidsAfterClose(SQUEEZED, 0) == [Leaf(5, 5, 3, 0, Some(1))];
  }

  lemma LeafGrow(w: Window, n: int)
    requires w == WIDE && n >= 3 && Sound(w.root)
    ensures Step(w, Resize(n, 5)).root.sx == n + 2
  {}

  lemma RunNone(w: Window, ops: seq<Op>)
    requires Invariant(w) && ops == []
    ensures RunEnabled(w, ops) && Run(w, ops) == w
  {}

  lemma RunThree(w: Window, a: Op, b: Op, c: Op)
    requires Invariant(w) && Enabled(w, a)
    requires Invariant(Step(w, a)) && Enabled(Step(w, a), b)
    requires Invariant(Step(Step(w, a), b)) && Enabled(Step(Step(w, a), b), c)
    ensures RunEnabled(w, [a, b, c]) && Run(w, [a, b, c]) == Step(Step(Step(w, a), b), c)
  {
    hide Enabled, Step, Sound, Exact;
    assert [a, b, c][1..] == [b, c] && [b, c][1..] == [c] && [c][1..] == [];
    var w1, w2 := Step(w, a), Step(Step(w, a), b);
    StepKeeps(w2, c);
    assert RunEnabled(w2, [c]) && Run(w2, [c]) == Step(w2, c) by { RunNone(Step(w2, c), []); }
    assert RunEnabled(w1, [b, c]) && Run(w1, [b, c]) == Step(w2, c);
  }

  /** A split, a shrink to the minimum and a close. */
  lemma SqueezedRun()
    ensures var ops := [Split([], LeftRight, -1, false, 1), Resize(3, 5), Close([0])];
            && Invariant(Init(5, 5, 0)) && RunEnabled(Init(5, 5, 0), ops)
            && Run(Init(5, 5, 0), ops) == WIDE
  {
    hide Invariant, Enabled, Step, Run, RunEnabled, Sound, Init;
    InitInvariant(5, 5, 0);
    SqueezedSound();
    InvariantSound(Window(5, 5, SQUEEZED));
    SqueezedShrink();
    SqueezedClose();
    RunThree(Init(5, 5, 0), Split([], LeftRight, -1, false, 1), Resize(3, 5), Close([0]));
  }

  lemma InvariantPanes(w: Window)
    requires Invariant(w)
    ensures None !in Panes(w.root)
  {}

  lemma InvariantSound(w: Window)
    requires Invariant(w)
    ensures Sound(w.root) && forall sx, sy :: Enabled(w, Resize(sx, sy))
  {}

  /** A close can leave a squeezed layout with space again; from then on it
      stays larger than the window however large that grows. */
  lemma CloseLosesFit()
    ensures var ops := [Split([], LeftRight, -1, false, 1), Resize(3, 5), Close([0])];
            && Invariant(Init(5, 5, 0)) && RunEnabled(Init(5, 5, 0), ops)
            && forall n :: n >= 3 ==> Step(Run(Init(5, 5, 0), ops), Resize(n, 5)).root.sx == n + 2
  {
    hide Invariant, Enabled, Step, Run, RunEnabled, Sound, Init;
    SqueezedRun();
    InvariantSound(WIDE);
    forall n | n >= 3 ensures Step(WIDE, Resize(n, 5)).root.sx == n + 2 { LeafGrow(WIDE, n); }
  }
}
