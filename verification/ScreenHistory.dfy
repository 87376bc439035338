// What the history holds over whole runs, and height changes (screen.c).
module ScreenHistory {
  import opened Common
  import opened GridLines
  import opened GridView
  import opened ScreenModel

  // ----- One step

  /** The lines a step scrolls off, oldest first. */
  function ScrolledOff(s: Screen, op: Op): seq<Line>
    requires Valid(s) && Enabled(s, op)
  {
    match op
    case Linefeed(wrapped) => FedOff(s, wrapped)
    case WriteCell(c) => if WrapsFor(s, c) then FedOff(s, true) else []
    case ClearScreen => if s.historyOn then s.v.screen[..LastUsed(s.v.screen)] else []
    case _ => []
  }

  function FedOff(s: Screen, wrapped: bool): seq<Line>
    requires Valid(s)
  {
    if s.historyOn && s.cy == s.rlower
    then [SetLine(s, s.v.screen[s.cy].(wrapped := wrapped)).v.screen[s.rupper]]
    else []
  }

  function Pushed(h: seq<Line>, lines: seq<Line>, hlimit: nat): seq<Line>
    decreases |lines|
  {
    if lines == [] then h else Pushed(Recorded(h, lines[0], hlimit), lines[1..], hlimit)
  }

  lemma {:induction false} PushedLast(h: seq<Line>, lines: seq<Line>, x: Line, hlimit: nat)
    ensures Pushed(h, lines + [x], hlimit) == Recorded(Pushed(h, lines, hlimit), x, hlimit)
    decreases |lines|
  {
    hide Recorded;
    if lines == [] {
      assert ([] + [x])[1..] == [];
      assert Pushed(Recorded(h, x, hlimit), [], hlimit) == Recorded(h, x, hlimit);
    } else {
      assert (lines + [x])[1..] == lines[1..] + [x];
      PushedLast(Recorded(h, lines[0], hlimit), lines[1..], x, hlimit);
    }
  }

  /** Scrolling the top n lines away pushes exactly them. */
  lemma {:induction false} ScrolledAwayPushes(v: View, n: nat, hlimit: nat)
    requires n <= |v.screen| && v.screen != []
    ensures ScrolledAway(v, n, hlimit).history == Pushed(v.history, v.screen[..n], hlimit)
  {
    hide Recorded, RegionUp;
    if n == 0 {
      assert v.screen[..0] == [];
    } else {
      ScrolledAwayPushes(v, n - 1, hlimit);
      ScrolledAwayScreen(v, n - 1, hlimit);
      PushedLast(v.history, v.screen[..n - 1], v.screen[n - 1], hlimit);
      assert v.screen[..n] == v.screen[..n - 1] + [v.screen[n - 1]];
    }
  }

  lemma FedPushes(s: Screen, wrapped: bool)
    requires Valid(s) && Feeds(s)
    ensures Fed(s, wrapped).v.history
            == if s.historyOn then Pushed(s.v.history, FedOff(s, wrapped), s.hlimit) else s.v.history
  {
    hide Recorded, RegionUp;
    var off := FedOff(s, wrapped);
    if off != [] {
      assert off[1..] == [];
      var h := Recorded(s.v.history, off[0], s.hlimit);
      assert Pushed(h, [], s.hlimit) == h;
    }
  }

  /** Every step changes the history only by pushing the lines it scrolls off,
      and only if history is on. */
  lemma StepPushes(s: Screen, op: Op)
    requires Valid(s) && Enabled(s, op)
    ensures Step(s, op).v.history
            == if s.historyOn then Pushed(s.v.history, ScrolledOff(s, op), s.hlimit) else s.v.history
  {
    hide Fed, ScrolledAway, FedOff, LastUsed;
    match op
    case Linefeed(wrapped) => FedPushes(s, wrapped);
    case WriteCell(c) => if WrapsFor(s, c) { FedPushes(s, true); }
    case ClearScreen => if s.historyOn { ScrolledAwayPushes(s.v, LastUsed(s.v.screen), s.hlimit); }
    case _ =>
  }

  // ----- Runs

  predicate RunEnabled(s: Screen, ops: seq<Op>)
    requires Valid(s)
    decreases |ops|
  {
    ops == [] || (Enabled(s, ops[0]) && RunEnabled(Step(s, ops[0]), ops[1..]))
  }

  function Run(s: Screen, ops: seq<Op>): (r: Screen)
    requires Valid(s) && RunEnabled(s, ops)
    ensures SameKind(r, s)
    decreases |ops|
  {
    if ops == [] then s else Run(Step(s, ops[0]), ops[1..])
  }

  // Two characters on a screen of two columns leave the cursor in the column
  // after the last; a move right from there goes on.
  lemma CursorLeaves()
    ensures var s := Screen(View([], Blanks(1)), 2, 1, true, 0, 0, 0, 0);
            var a := WriteCell(Char(DEFAULT_CELL, UNSET));
            Valid(s) && RunEnabled(s, [a, a, CursorRight(1)]) && Run(s, [a, a, CursorRight(1)]).cx == 3
  {
    hide Written;
    var s := Screen(View([], Blanks(1)), 2, 1, true, 0, 0, 0, 0);
    var a := WriteCell(Char(DEFAULT_CELL, UNSET));
    var ops := [a, a, CursorRight(1)];
    assert ops[1..] == [a, CursorRight(1)] && ops[1..][1..] == [CursorRight(1)] && ops[1..][1..][1..] == [];
    var s1 := Step(s, a);
    var s2 := Step(s1, a);
    assert s1.cx == 1 && s2.cx == 2;
    var s3 := Step(s2, CursorRight(1));
    assert s3.cx == 3;
    assert RunEnabled(s3, []) && RunEnabled(s2, [CursorRight(1)]) && RunEnabled(s1, [a, CursorRight(1)]);
    assert Run(s3, []) == s3;
    assert Run(s2, [CursorRight(1)]) == s3;
    assert Run(s1, [a, CursorRight(1)]) == s3;
  }

  /** All lines a run scrolls off, oldest first. */
  function Log(s: Screen, ops: seq<Op>): seq<Line>
    requires Valid(s) && RunEnabled(s, ops)
    decreases |ops|
  {
    if ops == [] then [] else ScrolledOff(s, ops[0]) + Log(Step(s, ops[0]), ops[1..])
  }

  predicate EndOf(h: seq<Line>, log: seq<Line>) {
    |h| <= |log| && h == log[|log| - |h|..]
  }

  lemma PushedEnd(h: seq<Line>, log: seq<Line>, x: Line, hlimit: nat)
    requires EndOf(h, log)
    ensures EndOf(Recorded(h, x, hlimit), log + [x])
    ensures |Recorded(h, x, hlimit)| <= Max(|h|, hlimit)
  {
    if hlimit >= 1 || h != [] {
      TrimmedIs(h, hlimit);
      var t := Trimmed(h, hlimit);
      assert t == log[|log| - |t|..];
    }
  }

  /** The history is the end of the log: never more than the limit, and never
      shorter than what one collection leaves. */
  predicate Remembers(h: seq<Line>, log: seq<Line>, hlimit: nat) {
    EndOf(h, log) && |h| <= hlimit && |h| >= Min(|log|, hlimit - Max(1, hlimit / 10) + 1)
  }

  lemma RecordedLength(h: seq<Line>, x: Line, hlimit: nat)
    requires |h| <= hlimit
    ensures |Recorded(h, x, hlimit)| == if |h| < hlimit then |h| + 1 else if hlimit == 0 then 0 else hlimit - Max(1, hlimit / 10) + 1
  {
    if hlimit >= 1 { TrimmedIs(h, hlimit); }
  }

  /** The same bounds for one more line, `kept` being what a collection leaves
      with the line that comes after it. */
  lemma BoundsKept(n: nat, logged: nat, hlimit: nat, kept: int)
    requires n <= hlimit && n >= Min(logged, kept) && kept <= hlimit && (hlimit == 0 ==> kept == 0)
    ensures var now := if n < hlimit then n + 1 else if hlimit == 0 then 0 else kept;
            now <= hlimit && now >= Min(logged + 1, kept)
  {}

  lemma KeptAtLimit(hlimit: nat)
    ensures var kept := hlimit - Max(1, hlimit / 10) + 1; kept <= hlimit && (hlimit == 0 ==> kept == 0)
  {}

  lemma PushRemembers(h: seq<Line>, log: seq<Line>, x: Line, hlimit: nat)
    requires Remembers(h, log, hlimit)
    ensures Remembers(Recorded(h, x, hlimit), log + [x], hlimit)
  {
    hide Recorded, EndOf, Min, Max;
    PushedEnd(h, log, x, hlimit);
    RecordedLength(h, x, hlimit);
    KeptAtLimit(hlimit);
    BoundsKept(|h|, |log|, hlimit, hlimit - Max(1, hlimit / 10) + 1);
  }

  lemma {:induction false} PushedRemembers(h: seq<Line>, log: seq<Line>, lines: seq<Line>, hlimit: nat)
    requires Remembers(h, log, hlimit)
    ensures Remembers(Pushed(h, lines, hlimit), log + lines, hlimit)
    decreases |lines|
  {
    hide Remembers, Recorded;
    if lines == [] {
      assert log + lines == log;
    } else {
      PushRemembers(h, log, lines[0], hlimit);
      PushedRemembers(Recorded(h, lines[0], hlimit), log + [lines[0]], lines[1..], hlimit);
      assert log + [lines[0]] + lines[1..] == log + lines;
    }
  }

  lemma {:induction false} RunRemembers(s: Screen, ops: seq<Op>, log: seq<Line>)
    requires Valid(s) && RunEnabled(s, ops) && s.historyOn && Remembers(s.v.history, log, s.hlimit)
    ensures Remembers(Run(s, ops).v.history, log + Log(s, ops), s.hlimit)
    decreases |ops|
  {
    hide Remembers, Step, ScrolledOff;
    if ops == [] {
      assert log + Log(s, ops) == log;
    } else {
      var off := ScrolledOff(s, ops[0]);
      StepPushes(s, ops[0]);
      PushedRemembers(s.v.history, log, off, s.hlimit);
      RunRemembers(Step(s, ops[0]), ops[1..], log + off);
      assert log + off + Log(Step(s, ops[0]), ops[1..]) == log + Log(s, ops);
    }
  }

  /** Any run on a screen whose history is on and empty: the history is exactly
      the newest part of what was scrolled off. */
  lemma HistoryIsLog(s: Screen, ops: seq<Op>)
    requires Valid(s) && RunEnabled(s, ops) && s.historyOn && s.v.history == []
    ensures var h, log := Run(s, ops).v.history, Log(s, ops);
            && |h| <= |log| && h == log[|log| - |h|..]
            && Min(|log|, s.hlimit - Max(1, s.hlimit / 10) + 1) <= |h| <= s.hlimit
  {
    hide Run, Log, RunEnabled;
    RunRemembers(s, ops, []);
    assert [] + Log(s, ops) == Log(s, ops);
  }

  // ----- Height changes

  function AllLines(s: Screen): seq<Line> {
    s.v.history + s.v.screen
  }

  function CursorRow(s: Screen): nat {
    |s.v.history| + s.cy
  }

  predicate OnlyBlanks(a: seq<Line>) {
    forall k :: 0 <= k < |a| ==> a[k] == BLANK
  }

  /** With history on a height change keeps the cursor on its line and only cuts
      lines below it or adds blank ones at the end. The history gains only the
      lines that must go for the cursor to stay on the screen, and gives back as
      many as there is new room for; the region is the whole screen again. */
  lemma ResizedKeeps(s: Screen, sy: nat)
    requires Valid(s) && s.historyOn && 1 <= sy < UINT_SIZE
    ensures var r := Resized(s, sy);
            && CursorRow(r) == CursorRow(s) && r.cy < sy == Height(r)
            && CursorRow(s) < |AllLines(r)|
            && |r.v.history| == (if sy < Height(s) then |s.v.history| + Max(0, s.cy - (sy - 1))
                                 else |s.v.history| - Min(|s.v.history|, sy - Height(s)))
            && r.cx == s.cx && (sy != Height(s) ==> r.rupper == 0 && r.rlower == sy - 1)
            && (AllLines(r) <= AllLines(s)
                || (AllLines(s) <= AllLines(r) && OnlyBlanks(AllLines(r)[|AllLines(s)|..])))
  {
    var r := Resized(s, sy);
    if sy < Height(s) {
      var needed := Height(s) - sy;
      var top := needed - Min(Height(s) - 1 - s.cy, needed);
      assert AllLines(r) == AllLines(s)[..|s.v.history| + top + sy];
    } else if sy > Height(s) {
      var needed := sy - Height(s);
      var back := Min(|s.v.history|, needed);
      var keep := |s.v.history| - back;
      assert s.v.history[..keep] + s.v.history[keep..] == s.v.history;
      assert AllLines(r) == AllLines(s) + Blanks(needed - back);
    }
  }

  predicate Heights(hs: seq<nat>) {
    forall i :: 0 <= i < |hs| ==> 1 <= hs[i] < UINT_SIZE
  }

  function ResizedAll(s: Screen, hs: seq<nat>): (r: Screen)
    requires Valid(s) && Heights(hs)
    ensures Valid(r) && r.historyOn == s.historyOn
    decreases |hs|
  {
    if hs == [] then s else ResizedAll(Resized(s, hs[0]), hs[1..])
  }

  /** Over any run of height changes with history on, the cursor stays on its
      line, and that line and all above it are unchanged. */
  lemma {:induction false} HeightRun(s: Screen, hs: seq<nat>)
    requires Valid(s) && s.historyOn && Heights(hs)
    ensures var r, row := ResizedAll(s, hs), CursorRow(s);
            && CursorRow(r) == row && r.cy < Height(r)
            && row < |AllLines(r)| && AllLines(r)[..row + 1] == AllLines(s)[..row + 1]
    decreases |hs|
  {
    if hs != [] {
      var t := Resized(s, hs[0]);
      ResizedKeeps(s, hs[0]);
      HeightRun(t, hs[1..]);
      PrefixAgrees(AllLines(t), AllLines(s), CursorRow(s) + 1);
    }
  }

  lemma PrefixAgrees(a: seq<Line>, b: seq<Line>, n: nat)
    requires n <= |a| && n <= |b| && (a <= b || b <= a)
    ensures a[..n] == b[..n]
  {}

  /** With history off the cursor stays on its line exactly when its row is
      still on the screen; otherwise the lines above are cut at the top. */
  lemma ResizedWithoutHistory(s: Screen, sy: nat)
    requires Valid(s) && !s.historyOn && 1 <= sy < UINT_SIZE
    ensures CursorRow(Resized(s, sy)) == CursorRow(s) <==> s.cy < sy
    ensures s.cy >= sy ==> Resized(s, sy).cy == sy - 1 && Resized(s, sy).v.screen == s.v.screen[s.cy + 1 - sy..s.cy + 1]
    ensures s.cy < sy <= Height(s) ==> Resized(s, sy).v.screen == s.v.screen[..sy]
    ensures sy > Height(s) ==> Resized(s, sy).v.screen == s.v.screen + Blanks(sy - Height(s))
    ensures Resized(s, sy).v.history == s.v.history
  {}

  // ----- Runs in which the height changes too

  datatype Change = Do(op: Op) | SetHeight(sy: nat)

  predicate Possible(s: Screen, c: Change)
    requires Valid(s)
  {
    match c
    case Do(op) => Enabled(s, op)
    case SetHeight(sy) => 1 <= sy < UINT_SIZE
  }

  function Changed(s: Screen, c: Change): (r: Screen)
    requires Valid(s) && Possible(s, c)
    ensures Valid(r) && r.historyOn == s.historyOn && r.hlimit == s.hlimit
  {
    match c
    case Do(op) => Step(s, op)
    case SetHeight(sy) => Resized(s, sy)
  }

  /** The log after a change: a smaller height scrolls lines off, a larger one
      takes the last of them back. */
  function Logged(s: Screen, c: Change, log: seq<Line>): seq<Line>
    requires Valid(s) && Possible(s, c) && s.historyOn && |s.v.history| <= |log|
  {
    match c
    case Do(op) => log + ScrolledOff(s, op)
    case SetHeight(sy) =>
      if sy < Height(s) then log + s.v.screen[..s.cy - Resized(s, sy).cy]
      else log[..|log| - (Resized(s, sy).cy - s.cy)]
  }

  predicate AllPossible(s: Screen, cs: seq<Change>)
    requires Valid(s)
    decreases |cs|
  {
    cs == [] || (Possible(s, cs[0]) && AllPossible(Changed(s, cs[0]), cs[1..]))
  }

  function ChangedAll(s: Screen, cs: seq<Change>): (r: Screen)
    requires Valid(s) && AllPossible(s, cs)
    ensures Valid(r) && r.historyOn == s.historyOn && r.hlimit == s.hlimit
    decreases |cs|
  {
    if cs == [] then s else ChangedAll(Changed(s, cs[0]), cs[1..])
  }

  /** The largest height of a run. */
  function Tallest(s: Screen, cs: seq<Change>): (n: nat)
    requires Valid(s) && AllPossible(s, cs)
    ensures n >= Height(s) && n >= Height(ChangedAll(s, cs))
    decreases |cs|
  {
    if cs == [] then Height(s) else Max(Height(s), Tallest(Changed(s, cs[0]), cs[1..]))
  }

  /** Lines scrolled off do not take the history further over its limit. */
  lemma {:induction false} PushedBound(h: seq<Line>, log: seq<Line>, lines: seq<Line>, hlimit: nat)
    requires EndOf(h, log)
    ensures EndOf(Pushed(h, lines, hlimit), log + lines)
    ensures |Pushed(h, lines, hlimit)| <= Max(|h|, hlimit)
    decreases |lines|
  {
    hide EndOf, Recorded;
    if lines == [] {
      assert log + lines == log;
    } else {
      PushedEnd(h, log, lines[0], hlimit);
      PushedBound(Recorded(h, lines[0], hlimit), log + [lines[0]], lines[1..], hlimit);
      assert log + [lines[0]] + lines[1..] == log + lines;
    }
  }

  lemma ResizedLog(s: Screen, sy: nat, log: seq<Line>)
    requires Valid(s) && s.historyOn && 1 <= sy < UINT_SIZE && EndOf(s.v.history, log)
    ensures var r := Resized(s, sy);
            && EndOf(r.v.history, Logged(s, SetHeight(sy), log))
            && |r.v.history| + sy <= Max(|s.v.history| + Height(s), sy)
  {
    var r := Resized(s, sy);
    var h := r.v.history;
    if sy < Height(s) {
      var top := s.cy - r.cy;
      assert h == s.v.history + s.v.screen[..top];
    } else if sy > Height(s) {
      var back := r.cy - s.cy;
      assert h == s.v.history[..|s.v.history| - back];
    } else {
      assert log[..|log|] == log;
    }
  }

  lemma ChangedLog(s: Screen, c: Change, log: seq<Line>)
    requires Valid(s) && Possible(s, c) && s.historyOn && EndOf(s.v.history, log)
    ensures var r := Changed(s, c);
            && EndOf(r.v.history, Logged(s, c, log))
            && |r.v.history| + Height(r) <= Max(|s.v.history| + Height(s), s.hlimit + Height(r))
  {
    hide Step, Resized, ScrolledOff, EndOf, Pushed;
    match c
    case Do(op) =>
      StepPushes(s, op);
      PushedBound(s.v.history, log, ScrolledOff(s, op), s.hlimit);
    case SetHeight(sy) => ResizedLog(s, sy, log);
  }

  function LogThrough(s: Screen, cs: seq<Change>, log: seq<Line>): (r: seq<Line>)
    requires Valid(s) && AllPossible(s, cs) && s.historyOn && EndOf(s.v.history, log)
    ensures EndOf(ChangedAll(s, cs).v.history, r)
    decreases |cs|
  {
    if cs == [] then log
    else
      ChangedLog(s, cs[0], log);
      LogThrough(Changed(s, cs[0]), cs[1..], Logged(s, cs[0], log))
  }

  lemma {:induction false} BoundRun(s: Screen, cs: seq<Change>, most: nat)
    requires Valid(s) && AllPossible(s, cs) && s.historyOn
    requires |s.v.history| + Height(s) <= s.hlimit + most && Tallest(s, cs) <= most
    ensures var r := ChangedAll(s, cs);
            |r.v.history| + Height(r) <= s.hlimit + most
    decreases |cs|
  {
    hide Changed, Logged;
    if cs != [] {
      ChangedLog(s, cs[0], s.v.history);
      BoundRun(Changed(s, cs[0]), cs[1..], most);
    }
  }

  /** Any run with height changes on a screen whose history is on and empty:
      the history is still exactly the newest part of what was scrolled off and
      not taken back, and it exceeds its limit by no more than the screen is
      shorter than it has been. */
  lemma HistoryBound(s: Screen, cs: seq<Change>)
    requires Valid(s) && AllPossible(s, cs) && s.historyOn && s.v.history == []
    ensures EndOf(s.v.history, [])
    ensures var r, log := ChangedAll(s, cs), LogThrough(s, cs, []);
            && |r.v.history| <= |log| && r.v.history == log[|log| - |r.v.history|..]
            && |r.v.history| <= s.hlimit + (Tallest(s, cs) - Height(r))
  {
    hide ChangedAll, LogThrough, Tallest, AllPossible;
    BoundRun(s, cs, Tallest(s, cs));
  }

  /** And it may exceed it by just that: shrinking a screen with a full history
      and the cursor on its last line leaves no room under the bound. */
  lemma BoundReached(s: Screen, sy: nat)
    requires Valid(s) && s.historyOn && |s.v.history| == s.hlimit && s.cy == Height(s) - 1 && 1 <= sy < Height(s)
    ensures AllPossible(s, [SetHeight(sy)])
    ensures var r := ChangedAll(s, [SetHeight(sy)]);
            Height(r) == sy && |r.v.history| == s.hlimit + (Tallest(s, [SetHeight(sy)]) - Height(r)) > s.hlimit
  {
    var cs := [SetHeight(sy)];
    assert cs[1..] == [];
    var r := Changed(s, cs[0]);
    assert AllPossible(r, []) && ChangedAll(r, []) == r && Tallest(r, []) == sy;
  }
}
