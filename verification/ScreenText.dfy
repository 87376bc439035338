// Lines of text written to a screen, each ended by a return and a linefeed: they
// stand in order in the history and the scroll region.
module ScreenText {
  import opened Common
  import opened GridLines
  import opened ScreenModel
  import opened ScreenHistory
  import opened ScreenSteps

  /** The columns a text takes. */
  function Columns(t: seq<Char>): nat {
    if t == [] then 0 else Columns(t[..|t| - 1]) + Width(t[|t| - 1])
  }

  predicate Plain(t: seq<Char>) {
    forall i :: 0 <= i < |t| ==> !t[i].cell.padding && 1 <= Width(t[i]) <= 2
  }

  /** Column x shows the character, with padding after a wide one. */
  predicate ShowsChar(l: Line, x: nat, c: Char) {
    && Peek(l, x) == c.cell && (c.cell.utf8 ==> PeekUtf8(l, x) == Some(c.utf8))
    && (Width(c) == 2 ==> Peek(l, x + 1).padding)
  }

  /** The line shows the text from its first column on and nothing after it. */
  ghost predicate ShowsText(l: Line, t: seq<Char>) {
    && (forall i :: 0 <= i < |t| ==> ShowsChar(l, Columns(t[..i]), t[i]))
    && forall z: nat :: z >= Columns(t) ==> Peek(l, z) == DEFAULT_CELL
  }

  lemma {:induction false} ColumnsBefore(t: seq<Char>, i: nat)
    requires i < |t|
    ensures Columns(t[..i]) + Width(t[i]) <= Columns(t)
  {
    if i + 1 < |t| {
      ColumnsBefore(t[..|t| - 1], i);
      assert t[..|t| - 1][..i] == t[..i];
    }
  }

  /** One more character after a text. */
  lemma ShowsMore(l: Line, t: seq<Char>, c: Char, sx: nat, r: Line)
    requires ShowsText(l, t) && Plain(t + [c]) && Columns(t) + Width(c) <= sx
    requires WrittenLaw(l, Columns(t), c, sx, r)
    ensures ShowsText(r, t + [c])
  {
    hide Peek, PeekUtf8, WrittenLaw, ShowsChar;
    var u, x := t + [c], Columns(t);
    assert u[..|u| - 1] == t && u[|t|] == c;
    NewChar(l, x, c, sx, r);
    BlankAfter(l, x, c, sx, r);
    forall i | 0 <= i < |u| ensures ShowsChar(r, Columns(u[..i]), u[i]) {
      assert u[..i] == t[..i];
      if i < |t| {
        ColumnsBefore(t, i);
        assert ShowsChar(l, Columns(t[..i]), t[i]) && t[i] == u[i];
        KeepsChar(l, Columns(t[..i]), t[i], x, c, sx, r);
      } else {
        assert t[..|t|] == t;
      }
    }
  }

  lemma NewChar(l: Line, x: nat, c: Char, sx: nat, r: Line)
    requires WrittenLaw(l, x, c, sx, r)
    ensures ShowsChar(r, x, c)
  {}

  lemma BlankAfter(l: Line, x: nat, c: Char, sx: nat, r: Line)
    requires WrittenLaw(l, x, c, sx, r) && forall z: nat :: z >= x ==> Peek(l, z) == DEFAULT_CELL
    ensures forall z: nat :: z >= x + Width(c) ==> Peek(r, z) == DEFAULT_CELL
    ensures !Peek(l, x).padding
  {
    hide Peek;
  }

  lemma KeepsChar(l: Line, y: nat, k: Char, x: nat, c: Char, sx: nat, r: Line)
    requires ShowsChar(l, y, k) && y + Width(k) <= x && 1 <= Width(k) <= 2 && !Peek(l, x).padding
    requires WrittenLaw(l, x, c, sx, r)
    ensures ShowsChar(r, y, k)
  {}

  // ----- Runs

  lemma {:induction false} RunThen(s: Screen, a: seq<Op>, b: seq<Op>)
    requires Valid(s) && RunEnabled(s, a) && RunEnabled(Run(s, a), b)
    ensures RunEnabled(s, a + b) && Run(s, a + b) == Run(Run(s, a), b)
    decreases |a|
  {
    hide Step, Enabled;
    if a == [] {
      assert a + b == b;
    } else {
      assert (a + b)[0] == a[0] && (a + b)[1..] == a[1..] + b;
      RunThen(Step(s, a[0]), a[1..], b);
    }
  }

  lemma RunOne(s: Screen, op: Op)
    requires Valid(s) && Enabled(s, op)
    ensures RunEnabled(s, [op]) && Run(s, [op]) == Step(s, op)
  {
    hide Step, Enabled;
    assert [op][1..] == [];
    assert RunEnabled(Step(s, op), []);
  }

  function TypeText(t: seq<Char>): (r: seq<Op>)
    ensures |r| == |t|
  {
    seq(|t|, i requires 0 <= i < |t| => WriteCell(t[i]))
  }

  /** Room for two columns, and for cursor columns that fit a u_int. */
  predicate Roomy(s: Screen) {
    2 <= s.sx < UINT_SIZE - 2
  }

  /** The screen with another line where the cursor is, and in another column. */
  function Retyped(s: Screen, l: Line, cx: UInt): (r: Screen)
    requires Valid(s)
    ensures SameKind(r, s)
  {
    s.(v := View(s.v.history, s.v.screen[s.cy := l]), cx := cx)
  }

  lemma TypedChar(s: Screen, l: Line, t: seq<Char>, c: Char) returns (r: Line)
    requires Valid(s) && Roomy(s) && ShowsText(l, t) && Plain(t + [c]) && Columns(t) + Width(c) <= s.sx
    ensures var a := Retyped(s, l, Columns(t));
            && Enabled(a, WriteCell(c)) && ShowsText(r, t + [c])
            && Step(a, WriteCell(c)) == Retyped(s, r, Columns(t) + Width(c))
  {
    hide ShowsText, WrittenLaw, Written;
    var a := Retyped(s, l, Columns(t));
    assert c == (t + [c])[|t|];
    StepObeys(a, WriteCell(c));
    var b := Step(a, WriteCell(c));
    r := b.v.screen[s.cy];
    ShowsMore(l, t, c, s.sx, r);
    assert b.v.screen == s.v.screen[s.cy := r];
  }

  lemma NothingTyped(s: Screen)
    requires Valid(s) && s.cx == 0 && s.v.screen[s.cy] == BLANK
    ensures RunEnabled(s, TypeText([])) && Run(s, TypeText([])) == s
    ensures ShowsText(BLANK, []) && Columns([]) == 0 && Retyped(s, BLANK, 0) == s
  {
    assert s.v.screen[s.cy := BLANK] == s.v.screen;
    assert TypeText([]) == [];
  }

  lemma TypedMore(s: Screen, before: seq<Char>, c: Char)
    requires Valid(s) && RunEnabled(s, TypeText(before)) && Enabled(Run(s, TypeText(before)), WriteCell(c))
    ensures RunEnabled(s, TypeText(before + [c]))
    ensures Run(s, TypeText(before + [c])) == Step(Run(s, TypeText(before)), WriteCell(c))
  {
    hide Step, Enabled, Run, RunEnabled;
    assert TypeText(before + [c]) == TypeText(before) + [WriteCell(c)];
    RunOne(Run(s, TypeText(before)), WriteCell(c));
    RunThen(s, TypeText(before), [WriteCell(c)]);
  }

  lemma {:induction false} TypedText(s: Screen, t: seq<Char>) returns (l: Line)
    requires Valid(s) && Roomy(s) && s.cx == 0 && s.v.screen[s.cy] == BLANK && Plain(t) && Columns(t) <= s.sx
    ensures RunEnabled(s, TypeText(t)) && ShowsText(l, t)
    ensures Run(s, TypeText(t)) == Retyped(s, l, Columns(t))
    decreases |t|
  {
    hide Step, Enabled, Run, RunEnabled, ShowsText, Retyped, TypeText, Width;
    if t == [] {
      l := BLANK;
      NothingTyped(s);
    } else {
      var before, c := t[..|t| - 1], t[|t| - 1];
      assert t == before + [c];
      var m := TypedText(s, before);
      l := TypedChar(s, m, before, c);
      TypedMore(s, before, c);
    }
  }

  // ----- One line

  function TypeLine(t: seq<Char>): seq<Op> {
    TypeText(t) + [CarriageReturn] + [Linefeed(false)]
  }

  /** The history and the lines of the region. */
  function Visible(s: Screen): seq<Line>
    requires Valid(s)
  {
    s.v.history + s.v.screen[s.rupper..s.rlower + 1]
  }

  /** All lines of text but the first d stand there in order, the newest right
      above the cursor; the lines from the cursor on are blank. Some are gone
      only if the history was full, of which then all but a tenth is left. */
  ghost predicate Printed(s: Screen, texts: seq<seq<Char>>, d: nat) {
    && Valid(s) && Roomy(s) && s.historyOn && s.hlimit >= 1 && s.cx == 0 && s.rupper <= s.cy <= s.rlower
    && d + |s.v.history| + (s.cy - s.rupper) == |texts|
    && (forall k :: d <= k < |texts| ==> ShowsText(Visible(s)[k - d], texts[k]))
    && (forall y :: s.cy <= y <= s.rlower ==> s.v.screen[y] == BLANK)
    && |s.v.history| <= s.hlimit
    && (d > 0 ==> |s.v.history| > s.hlimit - Max(1, s.hlimit / 10))
  }

  /** Nothing but the history, the cursor's row and the region's lines differs. */
  ghost predicate SameOutside(s: Screen, r: Screen)
    requires Valid(s)
  {
    && SameKind(r, s) && SameRegion(r, s)
    && forall y :: 0 <= y < Height(s) && !(s.rupper <= y <= s.rlower) ==> r.v.screen[y] == s.v.screen[y]
  }

  lemma UnmarkedShows(l: Line, t: seq<Char>)
    requires ShowsText(l, t)
    ensures ShowsText(l.(wrapped := false), t)
  {
    var m := l.(wrapped := false);
    assert forall z: nat :: Peek(m, z) == Peek(l, z) && PeekUtf8(m, z) == PeekUtf8(l, z);
    forall i | 0 <= i < |t| ensures ShowsChar(m, Columns(t[..i]), t[i]) { assert ShowsChar(l, Columns(t[..i]), t[i]); }
  }

  /** The linefeed after a line of text, in a region that has room. */
  lemma LineDown(s: Screen, texts: seq<seq<Char>>, d: nat, t: seq<Char>, l: Line, r: Screen)
    requires Printed(s, texts, d) && ShowsText(l, t) && s.cy < s.rlower
    requires var a := Retyped(s, l, 0); LinefeedLaw(a, false, r) && SameKind(r, a)
    ensures Printed(r, texts + [t], d) && SameOutside(s, r)
  {
    hide ShowsText;
    var m := l.(wrapped := false);
    UnmarkedShows(l, t);
    assert r.v.screen == s.v.screen[s.cy := m];
    var n := |s.v.history| + s.cy - s.rupper;
    assert Visible(r) == Visible(s)[n := m];
  }

  /** The region's part of a linefeed that scrolls. */
  lemma RegionFed(s: Screen, screen: seq<Line>, r: Screen)
    requires Valid(s) && s.historyOn && |screen| == Height(s) && FeedLaw(s, screen, r)
    ensures r.v.screen[s.rupper..s.rlower + 1] == screen[s.rupper + 1..s.rlower + 1] + [BLANK]
    ensures forall y :: 0 <= y < Height(s) && !(s.rupper <= y <= s.rlower) ==> r.v.screen[y] == screen[y]
  {
    var a, b := r.v.screen[s.rupper..s.rlower + 1], screen[s.rupper + 1..s.rlower + 1] + [BLANK];
    forall i | 0 <= i < |a| ensures a[i] == b[i] {
      assert a[i] == r.v.screen[s.rupper + i] && FeedRow(s, screen, r, s.rupper + i);
    }
    forall y | 0 <= y < Height(s) && !(s.rupper <= y <= s.rlower) ensures r.v.screen[y] == screen[y] {
      assert FeedRow(s, screen, r, y);
    }
  }

  /** The history and the region in one. */
  lemma VisibleFed(h: seq<Line>, region: seq<Line>, hlimit: nat, r: seq<Line>) returns (gone: nat)
    requires region != [] && hlimit >= 1 && |h| <= hlimit && GainsLine(r, h, region[0], hlimit)
    ensures gone <= |h| && |r| == |h| - gone + 1 <= hlimit
    ensures gone == (if |h| < hlimit then 0 else Max(1, hlimit / 10))
    ensures r + (region[1..] + [BLANK]) == (h + region)[gone..] + [BLANK]
  {
    gone := if |h| < hlimit then 0 else Max(1, hlimit / 10);
    assert h[0..] == h;
    assert region == [region[0]] + region[1..];
  }

  lemma ScrolledPlace(s: Screen, l: Line, r: Screen)
    requires Valid(s) && s.historyOn && s.rupper <= s.cy == s.rlower
    requires var a := Retyped(s, l, 0); LinefeedLaw(a, false, r) && SameKind(r, a)
    ensures r.cx == 0 && r.cy == s.cy && SameRegion(r, s) && r.v.screen[s.rlower] == BLANK
    ensures SameOutside(s, r)
  {
    hide GainsLine, FeedLaw;
    var a := Retyped(s, l, 0);
    var screen := a.v.screen[s.cy := l.(wrapped := false)];
    RegionFed(a, screen, r);
    assert r.v.screen[s.rlower] == r.v.screen[s.rupper..s.rlower + 1][s.rlower - s.rupper];
  }

  /** History and region of the screen after the scroll, out of those before. */
  lemma VisibleParts(s: Screen, l: Line, r: Screen)
    requires Valid(s) && s.historyOn && s.rupper <= s.cy == s.rlower
    requires var a := Retyped(s, l, 0); LinefeedLaw(a, false, r) && SameKind(r, a)
    ensures var m := l.(wrapped := false);
            var region := s.v.screen[s.rlower := m][s.rupper..s.rlower + 1];
            && Visible(s)[|s.v.history| + s.rlower - s.rupper := m] == s.v.history + region
            && GainsLine(r.v.history, s.v.history, region[0], s.hlimit)
            && Visible(r) == r.v.history + (region[1..] + [BLANK])
  {
    hide GainsLine, FeedLaw;
    var a, m := Retyped(s, l, 0), l.(wrapped := false);
    var screen := s.v.screen[s.rlower := m];
    assert a.v.screen[s.cy := m] == screen;
    RegionFed(a, screen, r);
    FedHistory(a, screen, r);
    LastUpdated(s.v.history, s.v.screen, s.rupper, s.rlower, m);
  }

  lemma VisibleScrolled(s: Screen, l: Line, r: Screen) returns (gone: nat)
    requires Valid(s) && s.historyOn && s.hlimit >= 1 && |s.v.history| <= s.hlimit && s.rupper <= s.cy == s.rlower
    requires var a := Retyped(s, l, 0); LinefeedLaw(a, false, r) && SameKind(r, a)
    ensures gone <= |s.v.history| && |r.v.history| == |s.v.history| - gone + 1 <= s.hlimit
    ensures gone == (if |s.v.history| < s.hlimit then 0 else Max(1, s.hlimit / 10))
    ensures var n := |s.v.history| + s.cy - s.rupper;
            Visible(r) == Visible(s)[n := l.(wrapped := false)][gone..] + [BLANK]
  {
    hide GainsLine, LinefeedLaw, Visible, Retyped, Max;
    VisibleParts(s, l, r);
    var region := s.v.screen[s.rlower := l.(wrapped := false)][s.rupper..s.rlower + 1];
    gone := VisibleFed(s.v.history, region, s.hlimit, r.v.history);
    VisibleLength(s);
  }

  lemma VisibleLength(s: Screen)
    requires Valid(s)
    ensures |Visible(s)| == |s.v.history| + s.rlower + 1 - s.rupper
  {}

  lemma LastUpdated(h: seq<Line>, screen: seq<Line>, upper: nat, lower: nat, m: Line)
    requires upper <= lower < |screen|
    ensures var region := screen[lower := m][upper..lower + 1];
            && (h + screen[upper..lower + 1])[|h| + lower - upper := m] == h + region
            && region[1..] == screen[lower := m][upper + 1..lower + 1] && region[0] == screen[lower := m][upper]
  {}

  /** The same at the end of the region. */
  lemma LineScrolled(s: Screen, texts: seq<seq<Char>>, d: nat, t: seq<Char>, l: Line, r: Screen) returns (e: nat)
    requires Printed(s, texts, d) && ShowsText(l, t) && s.cy == s.rlower
    requires var a := Retyped(s, l, 0); LinefeedLaw(a, false, r) && SameKind(r, a)
    ensures Printed(r, texts + [t], e) && SameOutside(s, r)
  {
    hide ShowsText, LinefeedLaw, SameOutside;
    UnmarkedShows(l, t);
    ScrolledPlace(s, l, r);
    var gone := VisibleScrolled(s, l, r);
    e := d + gone;
    var all := Visible(s)[|s.v.history| + s.cy - s.rupper := l.(wrapped := false)];
    forall k | e <= k < |texts| + 1 ensures ShowsText(Visible(r)[k - e], (texts + [t])[k]) {
      assert Visible(r)[k - e] == all[k - d];
    }
  }

  lemma FedHistory(s: Screen, screen: seq<Line>, r: Screen)
    requires Valid(s) && s.historyOn && |screen| == Height(s) && FeedLaw(s, screen, r)
    ensures GainsLine(r.v.history, s.v.history, screen[s.rupper], s.hlimit)
  {}

  /** A line of text and its end. */
  lemma LineTyped(s: Screen, texts: seq<seq<Char>>, d: nat, t: seq<Char>) returns (e: nat)
    requires Printed(s, texts, d) && Plain(t) && Columns(t) <= s.sx
    ensures RunEnabled(s, TypeLine(t))
    ensures var r := Run(s, TypeLine(t)); Printed(r, texts + [t], e) && SameOutside(s, r)
  {
    hide ShowsText, Step, Run, RunEnabled;
    var l := TypedText(s, t);
    var a := Run(s, TypeText(t));
    StepObeys(a, CarriageReturn);
    var b := Step(a, CarriageReturn);
    assert b == Retyped(s, l, 0);
    StepObeys(b, Linefeed(false));
    var r := Step(b, Linefeed(false));
    RunOne(a, CarriageReturn);
    RunThen(s, TypeText(t), [CarriageReturn]);
    RunOne(b, Linefeed(false));
    RunThen(s, TypeText(t) + [CarriageReturn], [Linefeed(false)]);
    if s.cy < s.rlower {
      LineDown(s, texts, d, t, l, r);
      e := d;
    } else {
      e := LineScrolled(s, texts, d, t, l, r);
    }
  }

  // ----- Whole texts

  function TypeLines(texts: seq<seq<Char>>): seq<Op> {
    if texts == [] then [] else TypeLines(texts[..|texts| - 1]) + TypeLine(texts[|texts| - 1])
  }

  /** Lines of text, none wider than the screen, written from the top left of a
      blank region: they stand in order in history and region, all of them but
      some of the oldest once the history has been full, and the lines outside
      the region are untouched. */
  lemma {:induction false} TextStands(s: Screen, texts: seq<seq<Char>>) returns (d: nat)
    requires Valid(s) && Roomy(s) && s.historyOn && s.hlimit >= 1 && s.v.history == []
    requires s.cx == 0 && s.cy == s.rupper && forall y :: s.rupper <= y <= s.rlower ==> s.v.screen[y] == BLANK
    requires forall k :: 0 <= k < |texts| ==> Plain(texts[k]) && Columns(texts[k]) <= s.sx
    ensures RunEnabled(s, TypeLines(texts))
    ensures var r := Run(s, TypeLines(texts)); Printed(r, texts, d) && SameOutside(s, r)
    decreases |texts|
  {
    hide ShowsText, Step, Plain, Columns;
    if texts == [] {
      d := 0;
    } else {
      var before, t := texts[..|texts| - 1], texts[|texts| - 1];
      assert before + [t] == texts;
      d := TextStands(s, before);
      var a := Run(s, TypeLines(before));
      d := LineTyped(a, before, d, t);
      RunThen(s, TypeLines(before), TypeLine(t));
    }
  }
}
