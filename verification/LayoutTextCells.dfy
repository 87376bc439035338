// layout_append and layout_construct on linked cells, proved against the
// functions of LayoutText.
module LayoutTextCells {
  import opened Common
  import opened Decimals
  import opened LayoutTree
  import opened LayoutCells
  import opened LayoutShapes
  import T = LayoutText

  // A character buffer of a fixed size, one byte of it for the terminator.
  class Buffer {
    const size: nat
    var text: seq<Byte>

    constructor (size: nat)
      requires size > 0
      ensures this.size == size && text == []
    {
      this.size := size;
      text := [];
    }

    // strlcat, cut at the size; ok if nothing was cut.
    method Cat(s: seq<Byte>) returns (ok: bool)
      requires |text| < size
      modifies this`text
      ensures ok <==> old(|text|) + |s| < size
      ensures |text| < size && (ok ==> text == old(text) + s)
    {
      ok := |text| + |s| < size;
      text := if ok then text + s else (text + s)[..size - 1];
    }
  }

  // ----- layout_append

  const TMP_SIZE := 64

  lemma {:induction false} DecimalLength(n: nat, k: nat, limit: nat)
    requires k >= 1 && limit == Power(k) && n < limit
    ensures |Decimal(n)| <= k
  {
    if n >= 10 { DecimalLength(n / 10, k - 1, Power(k - 1)); }
  }

  function Power(k: nat): nat {
    if k == 0 then 1 else 10 * Power(k - 1)
  }

  /** The numbers of one cell always fit the temporary buffer. */
  lemma CellTextFits(t: Tree)
    requires T.Printable(t)
    ensures |T.CellText(t)| < TMP_SIZE
  {
    hide Decimal;
    assert Power(10) == 10_000_000_000 by {
      assert Power(5) == 100_000;
    }
    DecimalLength(t.sx, 10, Power(10));
    DecimalLength(t.sy, 10, Power(10));
    DecimalLength(t.xoff, 10, Power(10));
    DecimalLength(t.yoff, 10, Power(10));
    if t.Leaf? && t.wp.Some? { DecimalLength(t.wp.value, 10, Power(10)); }
  }

  /** What the loop has written after some children: their texts, a comma after
      each. */
  function Listed(kids: seq<Tree>): seq<Byte>
    requires forall k | k in kids :: T.Printable(k)
  {
    if kids == [] then [] else T.Text(kids[0]) + [T.COMMA] + Listed(kids[1..])
  }

  lemma {:induction false} ListedAll(kids: seq<Tree>)
    requires kids != [] && forall k | k in kids :: T.Printable(k)
    ensures Listed(kids) == T.TextAll(kids) + [T.COMMA]
  {
    hide T.Text;
    if |kids| > 1 {
      ListedAll(kids[1..]);
    } else {
      assert kids[1..] == [] && Listed([]) == [];
    }
  }

  lemma {:induction false} ListedLast(kids: seq<Tree>, i: nat)
    requires i < |kids| && forall k | k in kids :: T.Printable(k)
    ensures Listed(kids[..i + 1]) == Listed(kids[..i]) + T.Text(kids[i]) + [T.COMMA]
    ensures |Listed(kids[..i])| + |T.Text(kids[i])| + 1 <= |Listed(kids)|
    decreases i
  {
    hide T.Text, T.Printable;
    assert kids[..i + 1][1..] == kids[1..][..i];
    if i == 0 {
      assert kids[..0] == [] && kids[1..][..0] == [] && Listed([]) == [];
    } else {
      assert kids[..i][1..] == kids[1..][..i - 1];
      ListedLast(kids[1..], i - 1);
    }
  }

  /** Only leaves hold panes. */
  ghost predicate PanesAtLeaves(sh: Shape)
    reads Cells(sh)`wp, Cells(sh)`kind
  {
    forall c :: c in Cells(sh) && c.wp != null ==> c.kind == WindowPane
  }

  lemma PanesBelow(sh: Shape, i: nat)
    requires PanesAtLeaves(sh) && i < |sh.kids|
    ensures PanesAtLeaves(sh.kids[i])
  {}

  lemma PaneHere(sh: Shape)
    requires PanesAtLeaves(sh)
    ensures sh.cell.wp != null ==> sh.cell.kind == WindowPane
  {
    TopCell(sh);
  }

  method Append(lc: Cell, buf: Buffer, ghost sh: Shape, ghost parent: Cell?, ghost t: Tree) returns (ok: bool)
    requires lc == sh.cell && Linked(sh, parent) && TreeOf(sh) == t && T.Printable(t) && PanesAtLeaves(sh)
    requires |buf.text| < buf.size
    modifies buf`text
    ensures |buf.text| < buf.size
    ensures ok <==> old(|buf.text|) + |T.Text(t)| < buf.size
    ensures ok ==> buf.text == old(buf.text) + T.Text(t)
    decreases sh, 1
  {
    hide Linked, TreeOf, TreesOf, Cells, CellsAll, PanesAtLeaves, T.Text, T.TextAll, T.CellText, T.Printable, Decimal, Listed;
    AllAllocated(sh);
    TreeHere(sh);
    T.PrintableHere(t);
    CellTextFits(t);
    TextHere(t);
    var tmp := PrintCell(lc, sh, t);
    if |tmp| > TMP_SIZE - 1 {
      return false;
    }
    ok := buf.Cat(tmp);
    if ok && lc.kind != WindowPane {
      ok := AppendKids(lc, buf, sh, parent, t);
    }
  }

  // The numbers of one cell.
  method PrintCell(lc: Cell, ghost sh: Shape, ghost t: Tree) returns (tmp: seq<Byte>)
    requires lc == sh.cell && TreeOf(sh) == t && T.Printable(t) && PanesAtLeaves(sh)
    ensures tmp == T.CellText(t)
  {
    hide TreeOf, TreesOf, Cells, CellsAll, PanesAtLeaves, T.CellText, T.Printable, Decimal;
    TreeHere(sh);
    T.PrintableHere(t);
    CellTextIs(t);
    PaneHere(sh);
    tmp := Decimal(lc.sx) + [T.LETTER_X] + Decimal(lc.sy) + [T.COMMA] + Decimal(lc.xoff) + [T.COMMA] + Decimal(lc.yoff);
    if lc.wp != null {
      tmp := tmp + ([T.COMMA] + Decimal(lc.wp.id));
    }
  }

  lemma CellTextIs(t: Tree)
    requires T.Printable(t)
    ensures t.sx >= 0 && t.sy >= 0 && t.xoff >= 0 && t.yoff >= 0
    ensures var numbers := Decimal(t.sx) + [T.LETTER_X] + Decimal(t.sy) + [T.COMMA] + Decimal(t.xoff) + [T.COMMA] + Decimal(t.yoff);
            T.CellText(t) == if t.Leaf? && t.wp.Some? then numbers + ([T.COMMA] + Decimal(t.wp.value)) else numbers
  {
    hide Decimal;
    var numbers := Decimal(t.sx) + [T.LETTER_X] + Decimal(t.sy) + [T.COMMA] + Decimal(t.xoff) + [T.COMMA] + Decimal(t.yoff);
    assert numbers + [] == numbers;
  }

  /** The children of a container as they are written. */
  function Inner(t: Tree): seq<Byte>
    requires T.Printable(t) && t.Node?
  {
    [T.Opener(t.dir)] + T.TextAll(t.kids) + [T.Closer(t.dir)]
  }

  // The children between brackets, each followed by a comma; the last comma is
  // replaced by the closing bracket.
  method AppendKids(lc: Cell, buf: Buffer, ghost sh: Shape, ghost parent: Cell?, ghost t: Tree) returns (ok: bool)
    requires lc == sh.cell && Linked(sh, parent) && TreeOf(sh) == t && T.Printable(t) && t.Node? && PanesAtLeaves(sh)
    requires |buf.text| < buf.size
    modifies buf`text
    ensures |buf.text| < buf.size
    ensures ok <==> old(|buf.text|) + |Inner(t)| < buf.size
    ensures ok ==> buf.text == old(buf.text) + Inner(t)
    decreases sh, 0
  {
    hide Linked, TreeOf, TreesOf, Cells, CellsAll, PanesAtLeaves, T.Text, T.TextAll, T.CellText, T.Printable, Decimal, Listed;
    AllAllocated(sh);
    TreeHere(sh);
    ChildrenLinked(sh, parent);
    T.PrintableHere(t);
    TextHere(t);
    ListedAll(t.kids);
    ghost var before := buf.text;
    ghost var was := before + [T.Opener(t.dir)];
    var dir := lc.kind.dir;
    ok := buf.Cat([T.Opener(dir)]);
    if !ok {
      return;
    }
    ListedNone(t.kids);
    for i := 0 to |lc.cells|
      invariant |buf.text| < buf.size && buf.text == was + Listed(t.kids[..i])
    {
      ListedLast(t.kids, i);
      ChildLinked(sh, parent, i);
      PanesBelow(sh, i);
      ok := Append(lc.cells[i], buf, sh.kids[i], lc, t.kids[i]);
      if !ok {
        return;
      }
      ok := buf.Cat([T.COMMA]);
      if !ok {
        return;
      }
    }
    ok := true;
    assert t.kids[..|t.kids|] == t.kids;
    CommaReplaced(before, T.Opener(dir), T.TextAll(t.kids), T.Closer(dir));
    buf.text := buf.text[..|buf.text| - 1] + [T.Closer(dir)];
  }

  lemma CommaReplaced(before: seq<Byte>, open: Byte, inner: seq<Byte>, close: Byte)
    ensures var s := before + [open] + (inner + [T.COMMA]);
            s[..|s| - 1] + [close] == before + ([open] + inner + [close])
  {}

  lemma ListedNone(kids: seq<Tree>)
    ensures kids[..0] == [] && Listed([]) == []
  {}

  lemma TextHere(t: Tree)
    requires T.Printable(t)
    ensures t.Leaf? ==> T.Text(t) == T.CellText(t)
    ensures t.Node? ==> T.Text(t) == T.CellText(t) + Inner(t)
    ensures |T.Text(t)| >= |T.CellText(t)|
  {}

  // ----- layout_construct

  // The text still to be read.
  class Cursor {
    var rest: seq<Byte>

    constructor (text: seq<Byte>)
      ensures rest == text
    {
      rest := text;
    }

    predicate At(b: Byte)
      reads this
    {
      rest != [] && rest[0] == b
    }

    method Skip()
      requires rest != []
      modifies this
      ensures rest == old(rest)[1..]
    {
      rest := rest[1..];
    }

    // Skip digits; their number.
    method SkipDigits() returns (n: nat, ghost count: nat)
      modifies this
      ensures count == Leading(old(rest)) && rest == old(rest)[count..] && n == Value(old(rest)[..count])
    {
      ghost var was := rest;
      count, n := 0, 0;
      assert was[..0] == [];
      while rest != [] && IsDigit(rest[0])
        invariant count <= |was| && rest == was[count..] && AllDigits(was[..count]) && n == Value(was[..count])
        decreases |rest|
      {
        assert was[..count + 1][..count] == was[..count];
        n := n * 10 + (rest[0] - 0x30);
        rest := rest[1..];
        count := count + 1;
      }
      LeadingIs(was, count);
    }

    // A number and the byte after it.
    method ReadField(end: Byte) returns (n: Option<nat>)
      modifies this
      ensures n == match T.Field(old(rest), end) case None => None case Some((k, _)) => Some(k)
      ensures n.Some? ==> T.Field(old(rest), end) == Some((n.value, rest))
      ensures n.None? ==> rest == old(rest)[Leading(old(rest))..]
    {
      hide Leading, Value;
      if rest == [] || !IsDigit(rest[0]) {
        NoDigits(rest);
        return None;
      }
      SomeDigits(rest);
      ghost var was := rest;
      var k;
      ghost var c;
      k, c := SkipDigits();
      if !At(end) {
        return None;
      }
      assert was[c..][1..] == was[c + 1..];
      Skip();
      n := Some(k);
    }
  }

  lemma NoDigits(s: seq<Byte>)
    requires s == [] || !IsDigit(s[0])
    ensures Leading(s) == 0
  {}

  lemma SomeDigits(s: seq<Byte>)
    requires s != [] && IsDigit(s[0])
    ensures Leading(s) > 0
  {}

  datatype Numbers = Numbers(sx: nat, sy: nat, xoff: nat, yoff: nat)

  // The numbers of a cell, a pane number skipped.
  method ReadNumbers(cursor: Cursor) returns (r: Option<Numbers>)
    modifies cursor
    ensures r.None? <==> T.ReadHeader(old(cursor.rest)).None?
    ensures r.Some? ==>
              T.ReadHeader(old(cursor.rest))
              == Some(T.Header(r.value.sx, r.value.sy, r.value.xoff, r.value.yoff, cursor.rest))
  {
    hide Leading, Value, T.Field;
    var sx := cursor.ReadField(T.LETTER_X);
    if sx.None? {
      return None;
    }
    var sy := cursor.ReadField(T.COMMA);
    if sy.None? {
      return None;
    }
    var xoff := cursor.ReadField(T.COMMA);
    if xoff.None? {
      return None;
    }
    if cursor.rest == [] || !IsDigit(cursor.rest[0]) {
      NoDigits(cursor.rest);
      return None;
    }
    SomeDigits(cursor.rest);
    var yoff;
    ghost var c;
    yoff, c := cursor.SkipDigits();
    if cursor.At(T.COMMA) {
      cursor.Skip();
      var id;
      id, c := cursor.SkipDigits();
    }
    r := Some(Numbers(sx.value, sy.value, xoff.value, yoff));
  }

  method Construct(lcparent: Cell?, cursor: Cursor) returns (lc: Cell?, ghost sh: Option<Shape>)
    modifies cursor
    ensures lc == null <==> T.Construct(old(cursor.rest)).None?
    ensures lc != null ==>
              && sh.Some? && sh.value.cell == lc && Linked(sh.value, lcparent) && Distinct(sh.value)
              && fresh(Cells(sh.value))
              && T.Construct(old(cursor.rest)) == Some((TreeOf(sh.value), cursor.rest))
    decreases |cursor.rest|, 1
  {
    hide Linked, Distinct, TreeOf, TreesOf, Cells, CellsAll, T.ReadHeader, T.ConstructAll;
    sh := None;
    var h := ReadNumbers(cursor);
    if h.None? {
      return null, None;
    }
    var cell := new Cell(lcparent);
    cell.sx, cell.sy, cell.xoff, cell.yoff := h.value.sx, h.value.sy, h.value.xoff, h.value.yoff;
    if cursor.rest == [] || cursor.At(T.COMMA) || cursor.At(T.CLOSE_BRACE) || cursor.At(T.CLOSE_BRACKET) {
      BuiltLeaf(cell, lcparent);
      return cell, Some(LeafShape(cell));
    }
    if cursor.At(T.OPEN_BRACE) {
      cell.kind := Container(LeftRight);
    } else if cursor.At(T.OPEN_BRACKET) {
      cell.kind := Container(TopBottom);
    } else {
      return null, None;
    }
    var ok;
    ghost var kids;
    ok, kids := ConstructKids(cell, cursor);
    if !ok {
      return null, None;
    }
    FamilyAllocated(kids);
    FamilyApart(cell, kids);
    if !cursor.At(T.Closer(cell.kind.dir)) {
      return null, None;
    }
    cursor.Skip();
    BuiltNode(cell, kids, lcparent);
    return cell, Some(Shape(cell, kids));
  }

  // The children of a container: each after one byte, until no comma follows.
  method ConstructKids(lc: Cell, cursor: Cursor) returns (ok: bool, ghost kids: seq<Shape>)
    requires lc.cells == [] && cursor.rest != []
    modifies cursor, lc`cells
    ensures ok <==> T.ConstructAll(old(cursor.rest)).Some?
    ensures ok ==>
              && Family(lc, kids) && fresh(CellsAll(kids)) && |lc.cells| == |kids|
              && (forall i :: 0 <= i < |kids| ==> lc.cells[i] == kids[i].cell)
              && T.ConstructAll(old(cursor.rest)) == Some((TreesOf(kids), cursor.rest))
    decreases |cursor.rest|, 0
  {
    hide Linked, Distinct, TreeOf, TreesOf, Cells, CellsAll, T.Construct, Family;
    kids := [];
    ok := true;
    ghost var start := cursor.rest;
    var more := true;
    NoFamily(lc);
    NoneContinued();
    while more
      invariant |cursor.rest| <= |start| && (more ==> cursor.rest != [])
      invariant Family(lc, kids) && fresh(CellsAll(kids)) && |lc.cells| == |kids|
      invariant forall i :: 0 <= i < |kids| ==> lc.cells[i] == kids[i].cell
      invariant more ==> T.ConstructAll(start) == Continued(TreesOf(kids), cursor.rest)
      invariant !more ==> T.ConstructAll(start) == Some((TreesOf(kids), cursor.rest))
      decreases more, |cursor.rest|
    {
      ghost var trees, from := TreesOf(kids), cursor.rest;
      ContinuedStep(trees, from);
      FamilyAllocated(kids);
      FamilyApart(lc, kids);
      cursor.Skip();
      var child;
      ghost var c;
      child, c := Construct(lc, cursor);
      if child == null {
        return false, kids;
      }
      JoinFamily(lc, kids, c.value);
      lc.cells := lc.cells + [child];
      kids := kids + [c.value];
      more := cursor.At(T.COMMA);
    }
  }

  /** What reading children comes to when some have been read. */
  function Continued(trees: seq<Tree>, rest: seq<Byte>): Option<(seq<Tree>, seq<Byte>)>
    requires rest != []
  {
    match T.ConstructAll(rest)
    case None => None
    case Some((ts, q)) => Some((trees + ts, q))
  }

  lemma ContinuedStep(trees: seq<Tree>, rest: seq<Byte>)
    requires rest != []
    ensures Continued(trees, rest) ==
            match T.Construct(rest[1..])
            case None => None
            case Some((t, r)) =>
              if r != [] && r[0] == T.COMMA then Continued(trees + [t], r) else Some((trees + [t], r))
  {
    hide T.Construct;
    match T.Construct(rest[1..])
    case None =>
    case Some((t, r)) =>
      if r != [] && r[0] == T.COMMA {
        match T.ConstructAll(r)
        case None =>
        case Some((ts, q)) => Concat(trees, [t], ts);
      }
  }

  lemma NoneContinued()
    ensures forall r: seq<Byte> :: r != [] ==> Continued([], r) == T.ConstructAll(r)
  {
    assert forall ts: seq<Tree> :: [] + ts == ts;
  }
}
