// Layouts as text: what layout_append writes and layout_construct reads
// (layout-custom.c).
module LayoutText {
  import opened Common
  import opened Decimals
  import opened LayoutTree
  import opened LayoutPaths

  const COMMA: Byte := 0x2c
  const LETTER_X: Byte := 0x78
  const OPEN_BRACE: Byte := 0x7b
  const CLOSE_BRACE: Byte := 0x7d
  const OPEN_BRACKET: Byte := 0x5b
  const CLOSE_BRACKET: Byte := 0x5d

  function Opener(d: Direction): Byte {
    if d == LeftRight then OPEN_BRACE else OPEN_BRACKET
  }

  function Closer(d: Direction): Byte {
    if d == LeftRight then CLOSE_BRACE else CLOSE_BRACKET
  }

  // ----- Writing

  /** Numbers fit %u and every container has a child. */
  predicate Printable(t: Tree) {
    && 0 <= t.sx <= UINT_MAX && 0 <= t.sy <= UINT_MAX && 0 <= t.xoff <= UINT_MAX && 0 <= t.yoff <= UINT_MAX
    && (t.Leaf? && t.wp.Some? ==> t.wp.value <= UINT_MAX)
    && (t.Node? ==> t.kids != [] && forall k | k in t.kids :: Printable(k))
  }

  // The numbers of one cell.
  function CellText(t: Tree): seq<Byte>
    requires t.sx >= 0 && t.sy >= 0 && t.xoff >= 0 && t.yoff >= 0
  {
    Decimal(t.sx) + [LETTER_X] + Decimal(t.sy) + [COMMA] + Decimal(t.xoff) + [COMMA] + Decimal(t.yoff)
    + (if t.Leaf? && t.wp.Some? then [COMMA] + Decimal(t.wp.value) else [])
  }

  function Text(t: Tree): seq<Byte>
    requires Printable(t)
    decreases t, 1
  {
    CellText(t) + if t.Leaf? then [] else [Opener(t.dir)] + TextAll(t.kids) + [Closer(t.dir)]
  }

  function TextAll(kids: seq<Tree>): seq<Byte>
    requires kids != [] && forall k | k in kids :: Printable(k)
    decreases kids, 0
  {
    if |kids| == 1 then Text(kids[0]) else Text(kids[0]) + [COMMA] + TextAll(kids[1..])
  }

  // ----- Reading

  datatype Header = Header(sx: nat, sy: nat, xoff: nat, yoff: nat, rest: seq<Byte>)

  /** A number and one given byte after it. */
  function Field(s: seq<Byte>, end: Byte): Option<(nat, seq<Byte>)> {
    var n := Leading(s);
    if n == 0 || n == |s| || s[n] != end then None else Some((Value(s[..n]), s[n + 1..]))
  }

  /** What is left once a comma and the digits after it are skipped. */
  function AfterPane(d: seq<Byte>): (r: seq<Byte>)
    ensures |r| <= |d|
  {
    if d != [] && d[0] == COMMA then d[1..][Leading(d[1..])..] else d
  }

  /** The numbers of one cell; a pane number is skipped. */
  function ReadHeader(s: seq<Byte>): (r: Option<Header>)
    ensures r.Some? ==> |r.value.rest| < |s|
  {
    match Field(s, LETTER_X)
    case None => None
    case Some((sx, a)) =>
      match Field(a, COMMA)
      case None => None
      case Some((sy, b)) =>
        match Field(b, COMMA)
        case None => None
        case Some((xoff, c)) =>
          var n := Leading(c);
          if n == 0 then None
          else
            Some(Header(sx, sy, xoff, Value(c[..n]), AfterPane(c[n..])))
  }

  predicate EndsCell(s: seq<Byte>) {
    s == [] || s[0] == COMMA || s[0] == CLOSE_BRACE || s[0] == CLOSE_BRACKET
  }

  /** A cell from the start of the text, and the text after it. Cells are built
      without panes. */
  function Construct(s: seq<Byte>): (r: Option<(Tree, seq<Byte>)>)
    ensures r.Some? ==> |r.value.1| < |s|
    decreases |s|, 1
  {
    match ReadHeader(s)
    case None => None
    case Some(h) =>
      if EndsCell(h.rest) then Some((Leaf(h.sx, h.sy, h.xoff, h.yoff, None), h.rest))
      else if h.rest[0] != OPEN_BRACE && h.rest[0] != OPEN_BRACKET then None
      else
        var dir := if h.rest[0] == OPEN_BRACE then LeftRight else TopBottom;
        match ConstructAll(h.rest)
        case None => None
        case Some((kids, r)) =>
          if r == [] || r[0] != Closer(dir) then None
          else Some((Node(dir, h.sx, h.sy, h.xoff, h.yoff, kids), r[1..]))
  }

  /** The children of a container: each after one byte, the opening bracket or a
      comma. */
  function ConstructAll(s: seq<Byte>): (r: Option<(seq<Tree>, seq<Byte>)>)
    requires s != []
    ensures r.Some? ==> |r.value.1| < |s| && r.value.0 != []
    decreases |s|, 0
  {
    match Construct(s[1..])
    case None => None
    case Some((k, r)) =>
      if r != [] && r[0] == COMMA then
        match ConstructAll(r)
        case None => None
        case Some((kids, q)) => Some(([k] + kids, q))
      else Some(([k], r))
  }

  // ----- Round trip

  /** The tree without its panes. */
  function Bare(t: Tree): Tree
    decreases t, 1
  {
    match t
    case Leaf(sx, sy, xoff, yoff, _) => Leaf(sx, sy, xoff, yoff, None)
    case Node(dir, sx, sy, xoff, yoff, kids) => Node(dir, sx, sy, xoff, yoff, BareAll(kids))
  }

  function BareAll(kids: seq<Tree>): (r: seq<Tree>)
    ensures |r| == |kids|
    decreases kids, 0
  {
    if kids == [] then [] else [Bare(kids[0])] + BareAll(kids[1..])
  }

  lemma FieldReads(n: nat, end: Byte, rest: seq<Byte>)
    requires !IsDigit(end)
    ensures Field(Decimal(n) + [end] + rest, end) == Some((n, rest))
  {
    DecimalReads(n, [end] + rest);
    assert Decimal(n) + [end] + rest == Decimal(n) + ([end] + rest);
    assert ([end] + rest)[1..] == rest;
    var t := Decimal(n) + [end] + rest;
    assert t[|Decimal(n)| + 1..] == t[|Decimal(n)|..][1..];
  }

  function PaneText(id: Option<nat>): seq<Byte> {
    if id == None then [] else [COMMA] + Decimal(id.value)
  }

  /** What follows the last of the four numbers of a cell. */
  function LastNumber(yoff: nat, id: Option<nat>, tail: seq<Byte>): seq<Byte> {
    Decimal(yoff) + (PaneText(id) + tail)
  }

  /** The four numbers of a cell, a pane number or none, and any tail. */
  lemma NumbersRead(sx: nat, sy: nat, xoff: nat, yoff: nat, id: Option<nat>, tail: seq<Byte>)
    ensures var c := LastNumber(yoff, id, tail);
            var n := Leading(c);
            ReadHeader(Decimal(sx) + [LETTER_X] + Decimal(sy) + [COMMA] + Decimal(xoff) + [COMMA] + Decimal(yoff)
                       + PaneText(id) + tail)
            == Some(Header(sx, sy, xoff, Value(c[..n]), AfterPane(c[n..])))
  {
    hide Field, Decimal, Value, Leading, PaneText, AfterPane, ReadHeader;
    var c := LastNumber(yoff, id, tail);
    var b := Decimal(xoff) + [COMMA] + c;
    Nested(Decimal(sx), Decimal(sy), Decimal(xoff), Decimal(yoff), PaneText(id), tail);
    FieldsRead(sx, sy, xoff, c, b, Decimal(sy) + [COMMA] + b);
    DigitsFirst(yoff, PaneText(id) + tail);
  }

  /** Three numbers with their separators, then any text. */
  lemma FieldsRead(sx: nat, sy: nat, xoff: nat, c: seq<Byte>, b: seq<Byte>, a: seq<Byte>)
    requires b == Decimal(xoff) + [COMMA] + c && a == Decimal(sy) + [COMMA] + b
    ensures var n := Leading(c);
            ReadHeader(Decimal(sx) + [LETTER_X] + a) ==
            if n == 0 then None else Some(Header(sx, sy, xoff, Value(c[..n]), AfterPane(c[n..])))
  {
    hide Field, Decimal, Value, Leading, AfterPane;
    FieldReads(sx, LETTER_X, a);
    FieldReads(sy, COMMA, b);
    FieldReads(xoff, COMMA, c);
  }

  /** A printed number and what follows: digits there would belong to it. */
  lemma DigitsFirst(n: nat, rest: seq<Byte>)
    ensures var t, k := Decimal(n) + rest, |Decimal(n)|;
            && k <= Leading(t) && 1 <= Leading(t) && (Leading(t) == k <==> rest == [] || !IsDigit(rest[0]))
  {
    var t, k := Decimal(n) + rest, |Decimal(n)|;
    assert t[..k] == Decimal(n);
    LeadingAtLeast(t, k);
    if rest == [] || !IsDigit(rest[0]) {
      LeadingIs(t, k);
    } else {
      assert t[..k + 1] == Decimal(n) + [rest[0]];
      LeadingAtLeast(t, k + 1);
    }
  }

  lemma PaneHere(id: Option<nat>, tail: seq<Byte>)
    ensures var d := PaneText(id) + tail;
            if id.Some? then d != [] && d[0] == COMMA && d[1..] == Decimal(id.value) + tail else d == tail
  {}

  lemma Nested(sx: seq<Byte>, sy: seq<Byte>, xoff: seq<Byte>, yoff: seq<Byte>, id: seq<Byte>, tail: seq<Byte>)
    ensures sx + [LETTER_X] + sy + [COMMA] + xoff + [COMMA] + yoff + id + tail
            == sx + [LETTER_X] + (sy + [COMMA] + (xoff + [COMMA] + (yoff + (id + tail))))
  {}

  /** What may follow the numbers of a cell without being taken for a part of
      them. */
  predicate Apart(id: Option<nat>, tail: seq<Byte>) {
    tail == [] || (!IsDigit(tail[0]) && (id == None ==> tail[0] != COMMA))
  }

  /** Exactly what is apart is left after the numbers of a cell. */
  lemma NumbersApart(sx: nat, sy: nat, xoff: nat, yoff: nat, id: Option<nat>, tail: seq<Byte>)
    ensures var r := ReadHeader(Decimal(sx) + [LETTER_X] + Decimal(sy) + [COMMA] + Decimal(xoff) + [COMMA] + Decimal(yoff)
                                + PaneText(id) + tail);
            && r.Some?
            && (Apart(id, tail) ==> r.value == Header(sx, sy, xoff, yoff, tail))
            && (!Apart(id, tail) ==> r.value.rest != tail)
  {
    hide Field, Decimal, Value, Leading, PaneText, ReadHeader;
    NumbersRead(sx, sy, xoff, yoff, id, tail);
    PaneHere(id, tail);
    var d := PaneText(id) + tail;
    DigitsFirst(yoff, d);
    if id.Some? { DigitsFirst(id.value, tail); }
    if Apart(id, tail) {
      DecimalReads(yoff, d);
      if id.Some? { DecimalReads(id.value, tail); }
    } else if id.Some? {
      DecimalReads(yoff, d);
      assert |AfterPane(d)| < |tail|;
    } else if IsDigit(tail[0]) {
      assert |(Decimal(yoff) + d)[Leading(Decimal(yoff) + d)..]| < |tail|;
    } else {
      DecimalReads(yoff, d);
      assert |AfterPane(d)| < |tail|;
    }
  }

  function PaneOf(t: Tree): Option<nat> {
    if t.Leaf? then t.wp else None
  }

  lemma HeaderReads(t: Tree, tail: seq<Byte>)
    requires Printable(t)
    ensures var r := ReadHeader(CellText(t) + tail);
            && r.Some?
            && (Apart(PaneOf(t), tail) ==> r.value == Header(t.sx, t.sy, t.xoff, t.yoff, tail))
            && (!Apart(PaneOf(t), tail) ==> r.value.rest != tail)
  {
    hide Printable, Decimal, ReadHeader;
    PrintableHere(t);
    NumbersApart(t.sx, t.sy, t.xoff, t.yoff, PaneOf(t), tail);
  }

  lemma PrintableHere(t: Tree)
    requires Printable(t)
    ensures t.sx >= 0 && t.sy >= 0 && t.xoff >= 0 && t.yoff >= 0
    ensures t.Node? ==> t.kids != [] && forall k | k in t.kids :: Printable(k)
  {}

  /** No leaf without a pane number has a comma after it. */
  predicate Numbered(t: Tree)
    decreases t, 1
  {
    t.Leaf? || NumberedAll(t.kids)
  }

  predicate NumberedAll(kids: seq<Tree>)
    decreases kids, 0
  {
    kids == []
    || (Numbered(kids[0]) && (|kids| > 1 && kids[0].Leaf? ==> kids[0].wp.Some?) && NumberedAll(kids[1..]))
  }

  /** When a text followed by the tail reads back. */
  predicate ReadsBack(t: Tree, tail: seq<Byte>) {
    Numbered(t) && (t.Leaf? ==> EndsCell(tail) && (t.wp == None && tail != [] ==> tail[0] != COMMA))
  }

  /** Then reading gives the same tree, but for the panes, and leaves exactly
      the tail. */
  lemma {:induction false} ConstructReads(t: Tree, tail: seq<Byte>)
    requires Printable(t) && ReadsBack(t, tail)
    ensures Construct(Text(t) + tail) == Some((Bare(t), tail))
    decreases t, 1
  {
    hide ReadHeader, CellText, ConstructAll, BareAll, Printable;
    PrintableHere(t);
    if t.Leaf? {
      assert Text(t) + tail == CellText(t) + tail;
      HeaderReads(t, tail);
    } else {
      NodeReads(t, tail);
      ConstructAllReads(t.kids, Opener(t.dir), [Closer(t.dir)] + tail);
      assert ([Closer(t.dir)] + tail)[1..] == tail;
    }
  }

  /** A container is read up to its children. */
  lemma NodeReads(t: Tree, tail: seq<Byte>)
    requires Printable(t) && t.Node?
    ensures t.kids != [] && forall k | k in t.kids :: Printable(k)
    ensures var inner := [Opener(t.dir)] + TextAll(t.kids) + ([Closer(t.dir)] + tail);
            && Text(t) + tail == CellText(t) + inner
            && ReadHeader(Text(t) + tail) == Some(Header(t.sx, t.sy, t.xoff, t.yoff, inner))
  {
    hide ReadHeader, CellText, Printable;
    PrintableHere(t);
    var inner := [Opener(t.dir)] + TextAll(t.kids) + ([Closer(t.dir)] + tail);
    assert Text(t) + tail == CellText(t) + inner;
    HeaderReads(t, inner);
  }

  lemma {:induction false} ConstructAllReads(kids: seq<Tree>, lead: Byte, tail: seq<Byte>)
    requires kids != [] && (forall k | k in kids :: Printable(k)) && NumberedAll(kids)
    requires tail != [] && tail[0] != COMMA && EndsCell(tail)
    ensures ConstructAll([lead] + TextAll(kids) + tail) == Some((BareAll(kids), tail))
    decreases kids, 0
  {
    hide Construct, Text, Bare, Printable;
    var s := [lead] + TextAll(kids) + tail;
    assert Printable(kids[0]) by { assert kids[0] in kids; }
    if |kids| == 1 {
      assert s[1..] == Text(kids[0]) + tail;
      ConstructReads(kids[0], tail);
      assert kids[1..] == [] && BareAll([]) == [];
      assert BareAll(kids) == [Bare(kids[0])];
    } else {
      var rest := [COMMA] + TextAll(kids[1..]) + tail;
      assert s[1..] == Text(kids[0]) + rest;
      ConstructReads(kids[0], rest);
      ConstructAllReads(kids[1..], COMMA, tail);
    }
  }

  // ----- Leaves without a pane

  /** A leaf without a pane number takes the width of the cell after it for
      one, and what is left begins with an x: nothing is read. */
  lemma LeafTakesNumber(l: Tree, n: nat, rest: seq<Byte>)
    requires l.Leaf? && l.wp == None && Printable(l)
    ensures Construct(CellText(l) + ([COMMA] + (Decimal(n) + ([LETTER_X] + rest)))) == None
  {
    hide Decimal, ReadHeader, Value, Field, Printable, CellText;
    PrintableHere(l);
    var tail := [LETTER_X] + rest;
    NumbersApart(l.sx, l.sy, l.xoff, l.yoff, Some(n), tail);
    BareNumbers(l);
    Concat(CellText(l), [COMMA] + Decimal(n), tail);
    Concat([COMMA], Decimal(n), tail);
  }

  lemma BareNumbers(l: Tree)
    requires l.Leaf? && l.wp == None && Printable(l)
    ensures CellText(l)
            == Decimal(l.sx) + [LETTER_X] + Decimal(l.sy) + [COMMA] + Decimal(l.xoff) + [COMMA] + Decimal(l.yoff)
  {}

  /** With such a leaf anywhere before another cell nothing is read at all. */
  lemma {:induction false} ConstructFails(t: Tree, tail: seq<Byte>)
    requires Printable(t) && !Numbered(t)
    ensures Construct(Text(t) + tail) == None
    decreases t, 1
  {
    hide ReadHeader, CellText, ConstructAll, Printable, Text, TextAll;
    NodeReads(t, tail);
    ConstructAllFails(t.kids, Opener(t.dir), [Closer(t.dir)] + tail);
  }

  lemma {:induction false} ConstructAllFails(kids: seq<Tree>, lead: Byte, tail: seq<Byte>)
    requires kids != [] && (forall k | k in kids :: Printable(k)) && !NumberedAll(kids)
    ensures ConstructAll([lead] + TextAll(kids) + tail) == None
    decreases kids, 0
  {
    hide Construct, Text, Printable, CellText;
    var s := [lead] + TextAll(kids) + tail;
    assert Printable(kids[0]) by { assert kids[0] in kids; }
    if |kids| == 1 {
      assert s[1..] == Text(kids[0]) + tail;
      assert kids[1..] == [];
      ConstructFails(kids[0], tail);
    } else {
      var rest := [COMMA] + TextAll(kids[1..]) + tail;
      assert s[1..] == Text(kids[0]) + rest;
      if !Numbered(kids[0]) {
        ConstructFails(kids[0], rest);
      } else if kids[0].Leaf? && kids[0].wp == None {
        var n, more := TextStarts(kids[1..], tail);
        LeafText(kids[0]);
        assert rest == [COMMA] + (TextAll(kids[1..]) + tail);
        LeafTakesNumber(kids[0], n, more);
      } else {
        ConstructReads(kids[0], rest);
        ConstructAllFails(kids[1..], COMMA, tail);
      }
    }
  }

  lemma LeafText(l: Tree)
    requires l.Leaf? && Printable(l)
    ensures Text(l) == CellText(l)
  {}

  /** A list of cells begins with a width. */
  lemma TextStarts(kids: seq<Tree>, tail: seq<Byte>) returns (n: nat, more: seq<Byte>)
    requires kids != [] && (forall k | k in kids :: Printable(k))
    ensures TextAll(kids) + tail == Decimal(n) + ([LETTER_X] + more)
  {
    hide Decimal;
    var k := kids[0];
    assert Printable(k);
    n := k.sx;
    var m := |Decimal(n)| + 1;
    assert CellText(k)[..m] == Decimal(n) + [LETTER_X] && m <= |CellText(k)|;
    assert Text(k)[..m] == CellText(k)[..m] && m <= |Text(k)|;
    assert TextAll(kids)[..m] == Text(k)[..m] && m <= |TextAll(kids)|;
    more := (TextAll(kids) + tail)[m..];
    assert (TextAll(kids) + tail)[..m] == Decimal(n) + [LETTER_X];
  }

  /** What a single leaf and a tail that does not end it are read as. */
  lemma LeafLeaves(l: Tree, tail: seq<Byte>)
    requires l.Leaf? && Printable(l) && !ReadsBack(l, tail)
    ensures Construct(Text(l) + tail) != Some((Bare(l), tail))
  {
    hide ReadHeader, CellText, ConstructAll, Printable, Text;
    LeafText(l);
    HeaderReads(l, tail);
  }

  /** For every tree and every tail: the text reads back, with exactly the tail
      left, if and only if no leaf without a pane number has a comma after it
      and the tail does not run into a last leaf. */
  lemma ConstructReadsIff(t: Tree, tail: seq<Byte>)
    requires Printable(t)
    ensures Construct(Text(t) + tail) == Some((Bare(t), tail)) <==> ReadsBack(t, tail)
  {
    hide Construct, Text, Printable, Bare;
    if ReadsBack(t, tail) {
      ConstructReads(t, tail);
    } else if t.Leaf? {
      LeafLeaves(t, tail);
    } else {
      ConstructFails(t, tail);
    }
  }

  // Two leaves side by side, the left one without a pane.
  const UNNUMBERED := Node(LeftRight, 5, 5, 0, 0, [Leaf(2, 5, 0, 0, None), Leaf(2, 5, 3, 0, Some(1))])

  lemma UnnumberedFails(tail: seq<Byte>)
    ensures Printable(UNNUMBERED) && Construct(Text(UNNUMBERED) + tail) == None
  {
    ConstructFails(UNNUMBERED, tail);
  }

  /** A tree whose leaves all hold panes always reads back. */
  lemma {:induction false} PanesNumbered(t: Tree)
    requires None !in Panes(t)
    ensures Numbered(t) && (t.Leaf? ==> t.wp.Some?)
    decreases t, 1
  {
    if t.Node? { PanesAllNumbered(t.kids); }
  }

  lemma {:induction false} PanesAllNumbered(kids: seq<Tree>)
    requires None !in PanesAll(kids)
    ensures NumberedAll(kids)
    decreases kids, 0
  {
    if kids != [] {
      PanesNumbered(kids[0]);
      PanesAllNumbered(kids[1..]);
    }
  }
}
