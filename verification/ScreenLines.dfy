// What every line keeps over whole runs: a property of lines that holds of
// blank ones and that marking and writing a line keep.
module ScreenLines {
  import opened Common
  import opened GridLines
  import opened GridView
  import opened ScreenModel
  import opened ScreenHistory

  ghost predicate LineInvariant(p: Line -> bool, sx: nat) {
    && p(BLANK)
    && (forall l: Line, w: bool {:trigger l.(wrapped := w)} :: p(l) ==> p(l.(wrapped := w)))
    && forall l: Line, x: nat, c: Char {:trigger Written(l, x, c, sx)} ::
         p(l) && 1 <= Width(c) <= 2 && x + Width(c) <= sx && !c.cell.padding ==> p(Written(l, x, c, sx))
  }

  ghost predicate AllHold(lines: seq<Line>, p: Line -> bool) {
    forall k :: 0 <= k < |lines| ==> p(lines[k])
  }

  ghost predicate ViewHolds(v: View, p: Line -> bool) {
    AllHold(v.history, p) && AllHold(v.screen, p)
  }

  /** Every line is blank or one of the others. */
  predicate FromLines(r: seq<Line>, lines: seq<Line>) {
    forall k :: 0 <= k < |r| ==> r[k] == BLANK || r[k] in lines
  }

  lemma FromHold(r: seq<Line>, lines: seq<Line>, p: Line -> bool)
    requires FromLines(r, lines) && AllHold(lines, p) && p(BLANK)
    ensures AllHold(r, p)
  {}

  lemma LineOperations(screen: seq<Line>, lower: nat, py: nat, n: nat)
    requires lower < |screen|
    ensures py <= lower ==> FromLines(RegionUp(screen, py, lower), screen) && FromLines(RegionDown(screen, py, lower), screen)
    ensures py + n <= lower + 1 ==>
              FromLines(InsertedLines(screen, lower, py, n), screen) && FromLines(DeletedLines(screen, lower, py, n), screen)
    ensures py + n <= |screen| ==> FromLines(OpenedLines(screen, py, n), screen)
  {}

  // ----- Screens

  lemma UpHolds(screen: seq<Line>, upper: nat, lower: nat, p: Line -> bool)
    requires upper <= lower < |screen| && AllHold(screen, p) && p(BLANK)
    ensures AllHold(RegionUp(screen, upper, lower), p)
  {
    LineOperations(screen, lower, upper, 0);
    FromHold(RegionUp(screen, upper, lower), screen, p);
  }

  lemma SetLineHolds(s: Screen, l: Line, p: Line -> bool)
    requires ScreenModel.Valid(s) && AllHold(s.v.screen, p) && p(l)
    ensures AllHold(SetLine(s, l).v.screen, p)
  {}

  lemma FedHolds(s: Screen, wrapped: bool, p: Line -> bool)
    requires ScreenModel.Valid(s) && Feeds(s) && AllHold(s.v.screen, p) && LineInvariant(p, s.sx)
    ensures AllHold(Fed(s, wrapped).v.screen, p) && AllHold(FedOff(s, wrapped), p)
  {
    hide RegionUp, Recorded;
    var l := s.v.screen[s.cy].(wrapped := wrapped);
    assert p(s.v.screen[s.cy]) && p(l);
    SetLineHolds(s, l, p);
    UpHolds(s.v.screen[s.cy := l], s.rupper, s.rlower, p);
  }

  lemma WriteHolds(s: Screen, c: Char, p: Line -> bool)
    requires ScreenModel.Valid(s) && Enabled(s, WriteCell(c)) && AllHold(s.v.screen, p) && LineInvariant(p, s.sx)
    ensures AllHold(WrittenCell(s, c).v.screen, p)
  {
    hide Fed, Written;
    if !c.cell.padding {
      if WrapsFor(s, c) { FedHolds(s, true, p); }
      var t := if WrapsFor(s, c) then Fed(s, true).(cx := 0) else s;
      assert p(t.v.screen[t.cy]) && p(Written(t.v.screen[t.cy], t.cx, c, t.sx));
    }
  }

  lemma InsertHolds(s: Screen, n: UInt, p: Line -> bool)
    requires ScreenModel.Valid(s) && AllHold(s.v.screen, p) && p(BLANK)
    ensures AllHold(LinesInserted(s, n).v.screen, p)
  {
    hide InsertedLines, OpenedLines;
    var screen := s.v.screen;
    if InRegion(s) {
      var k := Min(AtLeastOne(n), s.rlower + 1 - s.cy);
      LineOperations(screen, s.rlower, s.cy, k);
      FromHold(InsertedLines(screen, s.rlower, s.cy, k), screen, p);
    } else {
      var m := Min(AtLeastOne(n), Height(s) - s.cy);
      LineOperations(screen, s.rlower, s.cy, m);
      FromHold(OpenedLines(screen, s.cy, m), screen, p);
    }
  }

  lemma DeleteHolds(s: Screen, n: UInt, p: Line -> bool)
    requires ScreenModel.Valid(s) && AllHold(s.v.screen, p) && p(BLANK)
    ensures AllHold(LinesDeleted(s, n).v.screen, p)
  {
    hide DeletedLines;
    var lower := if InRegion(s) then s.rlower else Height(s) - 1;
    var k := Min(AtLeastOne(n), lower + 1 - s.cy);
    LineOperations(s.v.screen, lower, s.cy, k);
    FromHold(DeletedLines(s.v.screen, lower, s.cy, k), s.v.screen, p);
  }

  lemma ClearHolds(s: Screen, p: Line -> bool)
    requires ScreenModel.Valid(s) && AllHold(s.v.screen, p) && p(BLANK)
    ensures AllHold(ScreenModel.ScreenCleared(s).v.screen, p)
  {
    hide ScrolledAway, LastUsed;
    var n := LastUsed(s.v.screen);
    ScrolledAwayScreen(s.v, n, s.hlimit);
    FromHold(s.v.screen[n..] + Blanks(n), s.v.screen, p);
  }

  lemma ScreenStep(s: Screen, op: Op, p: Line -> bool)
    requires ScreenModel.Valid(s) && Enabled(s, op) && AllHold(s.v.screen, p) && LineInvariant(p, s.sx)
    ensures AllHold(Step(s, op).v.screen, p)
  {
    hide Fed, Reversed, LinesInserted, LinesDeleted, ScreenModel.ScreenCleared, WrittenCell, AllHold;
    match op
    case Linefeed(wrapped) => FedHolds(s, wrapped, p);
    case ReverseIndex => ReverseHolds(s, p);
    case InsertLine(n) => InsertHolds(s, n, p);
    case DeleteLine(n) => DeleteHolds(s, n, p);
    case ClearLine => SetLineHolds(s, BLANK, p);
    case ClearScreen => ClearHolds(s, p);
    case WriteCell(c) => WriteHolds(s, c, p);
    case _ =>
  }

  lemma ReverseHolds(s: Screen, p: Line -> bool)
    requires ScreenModel.Valid(s) && AllHold(s.v.screen, p) && p(BLANK)
    ensures AllHold(Reversed(s).v.screen, p)
  {
    hide RegionDown;
    LineOperations(s.v.screen, s.rlower, s.rupper, 0);
    FromHold(RegionDown(s.v.screen, s.rupper, s.rlower), s.v.screen, p);
  }

  // ----- Histories

  lemma {:induction false} PushedHolds(h: seq<Line>, lines: seq<Line>, hlimit: nat, p: Line -> bool)
    requires AllHold(h, p) && AllHold(lines, p)
    ensures AllHold(Pushed(h, lines, hlimit), p)
    decreases |lines|
  {
    if lines != [] {
      assert AllHold(Recorded(h, lines[0], hlimit), p);
      PushedHolds(Recorded(h, lines[0], hlimit), lines[1..], hlimit, p);
    }
  }

  lemma OffHolds(s: Screen, op: Op, p: Line -> bool)
    requires ScreenModel.Valid(s) && Enabled(s, op) && AllHold(s.v.screen, p) && LineInvariant(p, s.sx)
    ensures AllHold(ScrolledOff(s, op), p)
  {
    hide FedOff, LastUsed;
    if Feeds(s) {
      FedHolds(s, true, p);
      FedHolds(s, false, p);
    }
  }

  // ----- Runs

  lemma {:induction false} RunScreen(s: Screen, ops: seq<Op>, p: Line -> bool)
    requires ScreenModel.Valid(s) && RunEnabled(s, ops) && AllHold(s.v.screen, p) && LineInvariant(p, s.sx)
    ensures AllHold(Run(s, ops).v.screen, p)
    decreases |ops|
  {
    hide Step, AllHold, LineInvariant;
    if ops != [] {
      ScreenStep(s, ops[0], p);
      RunScreen(Step(s, ops[0]), ops[1..], p);
    }
  }

  /** Over any run every line of the history and the screen keeps the
      property. */
  lemma {:induction false} RunHolds(s: Screen, ops: seq<Op>, p: Line -> bool)
    requires ScreenModel.Valid(s) && RunEnabled(s, ops) && ViewHolds(s.v, p) && LineInvariant(p, s.sx)
    ensures ViewHolds(Run(s, ops).v, p)
    decreases |ops|
  {
    hide Step, AllHold, LineInvariant, ScrolledOff, Pushed;
    if ops != [] {
      ScreenStep(s, ops[0], p);
      OffHolds(s, ops[0], p);
      StepPushes(s, ops[0]);
      PushedHolds(s.v.history, ScrolledOff(s, ops[0]), s.hlimit, p);
      RunHolds(Step(s, ops[0]), ops[1..], p);
    }
  }

  // ----- UTF-8 data

  lemma {:induction false} BackUtf8(l: Line, x: nat)
    requires HasUtf8(l)
    ensures HasUtf8(ClearBack(l, x))
    decreases x
  {
    WithDefault(l, x);
    if x > 0 { BackUtf8(WithCell(l, x, DEFAULT_CELL), x - 1); }
  }

  lemma {:induction false} AheadUtf8(l: Line, x: nat, sx: nat)
    requires HasUtf8(l)
    ensures HasUtf8(ClearAhead(l, x, sx))
    decreases sx - x
  {
    WithDefault(l, x);
    if x < sx { AheadUtf8(WithCell(l, x, DEFAULT_CELL), x + 1, sx); }
  }

  lemma WithDefault(l: Line, x: nat)
    requires HasUtf8(l)
    ensures HasUtf8(WithCell(l, x, DEFAULT_CELL))
  {
    WithCellHas(l, x, DEFAULT_CELL);
  }

  /** All but the cell written keep their data. */
  lemma WithCellHas(l: Line, x: nat, gc: Cell)
    requires HasUtf8(l)
    ensures forall z: nat :: Peek(WithCell(l, x, gc), z).utf8 && z != x ==> z < |WithCell(l, x, gc).utf8|
    ensures Peek(WithCell(l, x, gc), x) == gc && WithCell(l, x, gc).utf8 == l.utf8
  {
    forall z: nat | Peek(WithCell(l, x, gc), z).utf8 && z != x ensures z < |l.utf8| {
      assert Peek(l, z).utf8;
    }
  }

  lemma WrittenHasUtf8(l: Line, x: nat, c: Char, sx: nat)
    requires HasUtf8(l)
    ensures HasUtf8(Written(l, x, c, sx))
  {
    hide WithCell, ClearBack, ClearAhead;
    BackUtf8(l, x);
    var b := if Peek(l, x).padding then ClearBack(l, x) else l;
    AheadUtf8(b, x + Width(c), sx);
    var o := Overwritten(l, x, Width(c), sx);
    WithCellHas(o, x + 1, Peek(o, x + 1).(padding := true));
    var q := if Width(c) == 2 then Padded(o, x + 1) else o;
    assert HasUtf8(q);
    WithCellHas(q, x, c.cell);
    if c.cell.utf8 { WithUtf8Has(WithCell(q, x, c.cell), x, c.utf8); }
  }

  lemma WithUtf8Has(l: Line, x: nat, gu: Utf8Cell)
    requires forall z: nat :: Peek(l, z).utf8 && z != x ==> z < |l.utf8|
    ensures HasUtf8(WithUtf8(l, x, gu))
  {
    var w := WithUtf8(l, x, gu);
    forall z: nat | Peek(w, z).utf8 ensures z < |w.utf8| {
      assert Peek(l, z).utf8;
    }
  }

  lemma Utf8Invariant(sx: nat)
    ensures LineInvariant(l => HasUtf8(l), sx)
  {
    hide Written;
    BlankShows();
    forall l: Line, w: bool | HasUtf8(l) ensures HasUtf8(l.(wrapped := w)) {
      assert forall z: nat :: Peek(l.(wrapped := w), z) == Peek(l, z);
    }
    forall l: Line, x: nat, c: Char | HasUtf8(l) ensures HasUtf8(Written(l, x, c, sx)) {
      WrittenHasUtf8(l, x, c, sx);
    }
  }

  /** Over any run from lines whose UTF-8 cells have their data, so do all
      lines of the history and the screen. */
  lemma Utf8Run(s: Screen, ops: seq<Op>)
    requires ScreenModel.Valid(s) && RunEnabled(s, ops)
    requires forall l :: l in s.v.history + s.v.screen ==> HasUtf8(l)
    ensures forall l :: l in Run(s, ops).v.history + Run(s, ops).v.screen ==> HasUtf8(l)
  {
    hide HasUtf8;
    var p := l => HasUtf8(l);
    assert forall k :: 0 <= k < |s.v.history| ==> s.v.history[k] in s.v.history + s.v.screen;
    assert forall k :: 0 <= k < |s.v.screen| ==> s.v.screen[k] in s.v.history + s.v.screen;
    Utf8Invariant(s.sx);
    RunHolds(s, ops, p);
  }
}
