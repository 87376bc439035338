// Padding cells over whole runs: a cell is padding exactly where the cell to
// its left starts a character two columns wide (screen_write_overwrite).
module ScreenPadding {
  import opened GridLines
  import opened ScreenModel
  import opened ScreenHistory
  import opened ScreenLines

  /** The first column of a character of width 2. */
  predicate Lead(l: Line, x: nat) {
    var c := Peek(l, x);
    c.utf8 && !c.padding && x < |l.utf8| && l.utf8[x].width == 2
  }

  predicate Pad(l: Line, x: nat) {
    Peek(l, x).padding
  }

  predicate PadAt(l: Line, x: nat) {
    Pad(l, x) <==> x > 0 && Lead(l, x - 1)
  }

  predicate Paired(l: Line, sx: nat) {
    forall x :: 0 <= x < sx ==> PadAt(l, x)
  }

  // ----- Writing a character

  lemma WithCellAt(l: Line, px: nat, gc: Cell, x: nat)
    ensures Peek(WithCell(l, px, gc), x) == if x == px then gc else Peek(l, x)
    ensures WithCell(l, px, gc).utf8 == l.utf8
  {}

  /** Clearing around column x in a paired line: a character that covers x from
      the left goes, and the second half of one that ends past the new one. */
  predicate Freed(o: Line, l: Line, x: nat, y: nat, sx: nat) {
    && o.utf8 == l.utf8
    && (forall z :: 0 <= z < sx ==>
          Peek(o, z) == if (Pad(l, x) && (z == x || z + 1 == x)) || (z == y && Pad(l, y)) then DEFAULT_CELL else Peek(l, z))
  }

  lemma BackFrees(l: Line, x: nat, sx: nat)
    requires Paired(l, sx) && x < sx && Pad(l, x)
    ensures x > 0 && ClearBack(l, x) == WithCell(WithCell(l, x, DEFAULT_CELL), x - 1, DEFAULT_CELL)
  {
    assert PadAt(l, x);
    WithCellAt(l, x, DEFAULT_CELL, x - 1);
  }

  lemma AheadFrees(l: Line, m: Line, y: nat, sx: nat)
    requires Paired(l, sx) && y >= 1 && m.utf8 == l.utf8
    requires forall z :: y <= z < sx ==> Peek(m, z) == Peek(l, z)
    ensures ClearAhead(m, y, sx) == if y < sx && Pad(l, y) then WithCell(m, y, DEFAULT_CELL) else m
  {
    if y < sx && Pad(l, y) {
      assert PadAt(l, y);
      WithCellAt(m, y, DEFAULT_CELL, y + 1);
      if y + 1 < sx { assert PadAt(l, y + 1); }
    }
  }

  lemma OverwrittenFrees(l: Line, x: nat, width: nat, sx: nat)
    requires Paired(l, sx) && width >= 1 && x + width <= sx
    ensures Freed(Overwritten(l, x, width, sx), l, x, x + width, sx)
  {
    hide WithCell, Peek, ClearBack, ClearAhead;
    var m := if Pad(l, x) then ClearBack(l, x) else l;
    assert PadAt(l, 0) && PadAt(l, x);
    if Pad(l, x) {
      BackFrees(l, x, sx);
      forall z: nat ensures Peek(m, z) == if z == x || z + 1 == x then DEFAULT_CELL else Peek(l, z) {
        WithCellAt(l, x, DEFAULT_CELL, z);
        WithCellAt(WithCell(l, x, DEFAULT_CELL), x - 1, DEFAULT_CELL, z);
      }
    }
    var y := x + width;
    assert m.utf8 == l.utf8 by {
      if Pad(l, x) {
        WithCellAt(l, x, DEFAULT_CELL, x);
        WithCellAt(WithCell(l, x, DEFAULT_CELL), x - 1, DEFAULT_CELL, x);
      }
    }
    AheadFrees(l, m, y, sx);
    forall z: nat ensures Peek(WithCell(m, y, DEFAULT_CELL), z) == if z == y then DEFAULT_CELL else Peek(m, z) {
      WithCellAt(m, y, DEFAULT_CELL, z);
    }
    WithCellAt(m, y, DEFAULT_CELL, y);
  }

  /** The cells of a line after a character of width 1 or 2 is written at x. */
  lemma WrittenCells(l: Line, x: nat, c: Char, sx: nat)
    requires 1 <= Width(c) <= 2
    ensures var o, w := Overwritten(l, x, Width(c), sx), Written(l, x, c, sx);
            && (forall z: nat :: Peek(w, z) == if z == x then c.cell
                                              else if Width(c) == 2 && z == x + 1 then Peek(o, x + 1).(padding := true)
                                              else Peek(o, z))
            && (forall z: nat :: z < |w.utf8| && z != x ==>
                  if z < |o.utf8| then w.utf8[z] == o.utf8[z] else w.utf8[z].width == 0)
            && (c.cell.utf8 ==> x < |w.utf8| && w.utf8[x] == c.utf8)
            && |o.utf8| <= |w.utf8|
  {
    hide Overwritten, WithCell, Peek;
    var o := Overwritten(l, x, Width(c), sx);
    var p := if Width(c) == 2 then Padded(o, x + 1) else o;
    forall z: nat ensures Peek(p, z) == if Width(c) == 2 && z == x + 1 then Peek(o, x + 1).(padding := true) else Peek(o, z) {
      WithCellAt(o, x + 1, Peek(o, x + 1).(padding := true), z);
    }
    WithCellAt(o, x + 1, Peek(o, x + 1).(padding := true), x);
    var w := WithCell(p, x, c.cell);
    forall z: nat ensures Peek(w, z) == if z == x then c.cell else Peek(p, z) {
      WithCellAt(p, x, c.cell, z);
    }
    WithCellAt(p, x, c.cell, x);
    forall z: nat ensures Peek(WithUtf8(w, x, c.utf8), z) == Peek(w, z) {
      Utf8Keeps(w, x, c.utf8, z);
    }
  }

  lemma Utf8Keeps(l: Line, px: nat, gu: Utf8Cell, z: nat)
    ensures Peek(WithUtf8(l, px, gu), z) == Peek(l, z)
  {}

  /** Writing a character keeps the line paired, whatever it overwrites. */
  lemma WrittenPaired(l: Line, x: nat, c: Char, sx: nat)
    requires Paired(l, sx) && 1 <= Width(c) <= 2 && x + Width(c) <= sx && !c.cell.padding
    ensures Paired(Written(l, x, c, sx), sx)
  {
    hide Overwritten, Written, Peek;
    OverwrittenFrees(l, x, Width(c), sx);
    WrittenCells(l, x, c, sx);
    var w := Written(l, x, c, sx);
    forall z | 0 <= z < sx ensures PadAt(w, z) {
      assert PadAt(l, z) && PadAt(l, x);
      if z > 0 { assert PadAt(l, z - 1); }
      if x + 1 < sx { assert PadAt(l, x + 1); }
      if x + 2 < sx { assert PadAt(l, x + 2); }
    }
  }

  // ----- Runs

  lemma WrappedPaired(l: Line, wrapped: bool, sx: nat)
    requires Paired(l, sx)
    ensures Paired(l.(wrapped := wrapped), sx)
  {
    forall x | 0 <= x < sx ensures PadAt(l.(wrapped := wrapped), x) {
      assert PadAt(l, x);
    }
  }

  lemma BlankPaired(sx: nat)
    ensures Paired(BLANK, sx)
  {}

  lemma PairedInvariant(sx: nat)
    ensures LineInvariant(l => Paired(l, sx), sx)
  {
    hide Written, Paired;
    BlankPaired(sx);
    forall l: Line, w: bool | Paired(l, sx) ensures Paired(l.(wrapped := w), sx) {
      WrappedPaired(l, w, sx);
    }
    forall l: Line, x: nat, c: Char | Paired(l, sx) && 1 <= Width(c) <= 2 && x + Width(c) <= sx && !c.cell.padding
      ensures Paired(Written(l, x, c, sx), sx)
    {
      WrittenPaired(l, x, c, sx);
    }
  }

  /** Over any run of character writes, cursor moves, scrolling and whole-line
      operations from a blank screen, a visible cell is padding if and only if
      the cell to its left starts a character of width 2. */
  lemma PaddingRun(s: Screen, ops: seq<Op>)
    requires ScreenModel.Valid(s) && RunEnabled(s, ops) && s.v.screen == Blanks(Height(s))
    ensures var r := Run(s, ops);
            forall y, x :: 0 <= y < Height(r) && 0 <= x < r.sx ==>
              (Pad(r.v.screen[y], x) <==> x > 0 && Lead(r.v.screen[y], x - 1))
  {
    hide Run, RunEnabled, Pad, Lead;
    BlankPaired(s.sx);
    PairedInvariant(s.sx);
    RunScreen(s, ops, l => Paired(l, s.sx));
    var r := Run(s, ops);
    forall y, x | 0 <= y < Height(r) && 0 <= x < r.sx
      ensures Pad(r.v.screen[y], x) <==> x > 0 && Lead(r.v.screen[y], x - 1)
    {
      assert Paired(r.v.screen[y], r.sx) && PadAt(r.v.screen[y], x);
    }
  }
}
