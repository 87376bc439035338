// Dumped layouts: the checksum in front of the text, and restoring a window
// from its own dump (layout-custom.c).
module LayoutDump {
  import opened Common
  import opened LayoutTree
  import opened LayoutOffsets
  import opened LayoutPaths
  import opened LayoutClose
  import opened LayoutText
  import W = LayoutWindow

  // ----- layout_checksum

  const USHORT := 0x1_0000

  /** One bit to the right around 16 bits. */
  function Turn(csum: nat): (r: nat)
    requires csum < USHORT
    ensures r < USHORT
  {
    csum / 2 + (csum % 2) * 0x8000
  }

  /** One turn, then the byte added. */
  function Roll(csum: nat, b: Byte): (r: nat)
    requires csum < USHORT
    ensures r < USHORT
  {
    (Turn(csum) + b) % USHORT
  }

  function Checksum(s: seq<Byte>): (c: nat)
    ensures c < USHORT
  {
    if s == [] then 0 else Roll(Checksum(s[..|s| - 1]), s[|s| - 1])
  }

  lemma EmptySum()
    ensures forall s: seq<Byte> :: Checksum(s[..0]) == 0
  {}

  lemma SumNext(s: seq<Byte>, i: nat, was: nat, now: nat)
    requires i < |s| && was < USHORT && Checksum(s[..i]) == was && Roll(was, s[i]) == now
    ensures Checksum(s[..i + 1]) == now
  {
    assert s[..i + 1][..i] == s[..i];
  }

  /** A string ends before its first NUL. */
  function CString(b: seq<Byte>): (s: seq<Byte>)
    ensures |s| <= |b| && s == b[..|s|] && 0 !in s && (|s| < |b| ==> b[|s|] == 0)
  {
    if b == [] || b[0] == 0 then [] else
      var s := CString(b[1..]);
      assert b[1..][..|s|] == b[1..|s| + 1];
      [b[0]] + s
  }

  lemma {:induction false} CStringIs(b: seq<Byte>, n: nat)
    requires n <= |b| && 0 !in b[..n] && (n < |b| ==> b[n] == 0)
    ensures CString(b) == b[..n]
  {
    if n > 0 {
      assert b[0] == b[..n][0] && b[1..][..n - 1] == b[..n][1..];
      CStringIs(b[1..], n - 1);
      assert b[..n] == [b[0]] + b[1..][..n - 1];
    }
  }

  method ComputeChecksum(layout: seq<Byte>) returns (csum: nat)
    ensures csum == Checksum(CString(layout))
  {
    csum := 0;
    var i := 0;
    assert layout[..0] == [];
    while i < |layout| && layout[i] != 0
      invariant i <= |layout| && csum == Checksum(layout[..i]) && csum < USHORT && 0 !in layout[..i]
    {
      assert layout[..i + 1][..i] == layout[..i];
      csum := csum / 2 + (csum % 2) * 0x8000;
      csum := (csum + layout[i]) % USHORT;
      i := i + 1;
    }
    CStringIs(layout, i);
  }

  lemma TurnInjective(a: nat, b: nat)
    requires a < USHORT && b < USHORT && Turn(a) == Turn(b)
    ensures a == b
  {
    assert a == 2 * (a / 2) + a % 2 && b == 2 * (b / 2) + b % 2;
    assert a / 2 < 0x8000 && b / 2 < 0x8000;
  }

  lemma AddInjective(u: nat, v: nat, x: Byte, y: Byte)
    requires u < USHORT && v < USHORT && (u + x) % USHORT == (v + y) % USHORT
    ensures x == y ==> u == v
    ensures u == v ==> x == y
  {
    assert (u + x) % USHORT == if u + x < USHORT then u + x else u + x - USHORT;
    assert (v + y) % USHORT == if v + y < USHORT then v + y else v + y - USHORT;
  }

  lemma RollInjective(a: nat, b: nat, x: Byte)
    requires a < USHORT && b < USHORT && Roll(a, x) == Roll(b, x)
    ensures a == b
  {
    hide Turn;
    AddInjective(Turn(a), Turn(b), x, x);
    TurnInjective(a, b);
  }

  lemma RollDiffers(a: nat, x: Byte, y: Byte)
    requires a < USHORT && Roll(a, x) == Roll(a, y)
    ensures x == y
  {
    hide Turn;
    AddInjective(Turn(a), Turn(a), x, y);
  }

  lemma {:induction false} ChecksumKeepsApart(a: seq<Byte>, b: seq<Byte>, tail: seq<Byte>)
    requires Checksum(a) != Checksum(b)
    ensures Checksum(a + tail) != Checksum(b + tail)
    decreases |tail|
  {
    if tail == [] {
      assert a + tail == a && b + tail == b;
    } else {
      var t, x := tail[..|tail| - 1], tail[|tail| - 1];
      ChecksumKeepsApart(a, b, t);
      assert (a + tail)[..|a + tail| - 1] == a + t && (b + tail)[..|b + tail| - 1] == b + t;
      if Checksum(a + tail) == Checksum(b + tail) { RollInjective(Checksum(a + t), Checksum(b + t), x); }
    }
  }

  /** A string with one byte changed never has the same checksum, unless the
      new byte ends the string there. */
  lemma OneByteChanged(s: seq<Byte>, i: nat, b: Byte)
    requires 0 !in s && i < |s| && b != s[i]
    ensures b != 0 ==> CString(s[i := b]) == s[i := b] && Checksum(s[i := b]) != Checksum(s)
    ensures b == 0 ==> CString(s[i := b]) == s[..i]
  {
    if b == 0 {
      CStringIs(s[i := b], i);
      assert s[i := b][..i] == s[..i];
    } else {
      CStringIs(s[i := b], |s|);
      ByteChanged(s, i, b);
    }
  }

  lemma ByteChanged(s: seq<Byte>, i: nat, b: Byte)
    requires i < |s| && b != s[i]
    ensures Checksum(s[i := b]) != Checksum(s)
  {
    hide Roll;
    var p := s[..i];
    assert (p + [b])[..i] == p && (p + [s[i]])[..i] == p;
    if Roll(Checksum(p), b) == Roll(Checksum(p), s[i]) { RollDiffers(Checksum(p), b, s[i]); }
    ChecksumKeepsApart(p + [b], p + [s[i]], s[i + 1..]);
    assert s[i := b] == p + [b] + s[i + 1..] && s == p + [s[i]] + s[i + 1..];
  }

  // ----- %4x and %hx

  const SPACE: Byte := 0x20

  predicate IsHex(b: Byte) {
    0x30 <= b <= 0x39 || 0x61 <= b <= 0x66 || 0x41 <= b <= 0x46
  }

  function HexValue(b: Byte): nat
    requires IsHex(b)
  {
    if b <= 0x39 then b - 0x30 else if b <= 0x46 then b - 0x41 + 10 else b - 0x61 + 10
  }

  function HexDigit(n: nat): (b: Byte)
    requires n < 16
    ensures IsHex(b) && HexValue(b) == n
  {
    if n < 10 then n + 0x30 else n - 10 + 0x61
  }

  function Hex(n: nat): (t: seq<Byte>)
    ensures t != [] && forall i :: 0 <= i < |t| ==> IsHex(t[i])
    ensures n < 0x10 ==> |t| == 1
    ensures n < 0x100 ==> |t| <= 2
    ensures n < 0x1000 ==> |t| <= 3
    ensures n < 0x1_0000 ==> |t| <= 4
  {
    if n < 16 then [HexDigit(n)] else Hex(n / 16) + [HexDigit(n % 16)]
  }

  function FromHex(t: seq<Byte>): nat
    requires forall i :: 0 <= i < |t| ==> IsHex(t[i])
  {
    if t == [] then 0 else FromHex(t[..|t| - 1]) * 16 + HexValue(t[|t| - 1])
  }

  lemma {:induction false} HexReads(n: nat)
    ensures FromHex(Hex(n)) == n
  {
    if n < 16 {
      assert Hex(n)[..0] == [];
    } else {
      HexReads(n / 16);
      assert Hex(n)[..|Hex(n)| - 1] == Hex(n / 16);
    }
  }

  function Spaces(n: nat): (r: seq<Byte>)
    ensures |r| == n && forall i :: 0 <= i < n ==> r[i] == SPACE
  {
    seq(n, i => SPACE)
  }

  // "%4x"
  function Hex4(n: nat): (r: seq<Byte>)
    requires n < USHORT
    ensures |r| == 4
  {
    Spaces(4 - |Hex(n)|) + Hex(n)
  }

  function SkipSpaces(s: seq<Byte>): (n: nat)
    ensures n <= |s| && (forall i :: 0 <= i < n ==> s[i] == SPACE) && (n < |s| ==> s[n] != SPACE)
  {
    if s == [] || s[0] != SPACE then 0 else SkipSpaces(s[1..]) + 1
  }

  function LeadingHex(s: seq<Byte>): (n: nat)
    ensures n <= |s| && (forall i :: 0 <= i < n ==> IsHex(s[i])) && (n < |s| ==> !IsHex(s[n]))
  {
    if s == [] || !IsHex(s[0]) then 0 else LeadingHex(s[1..]) + 1
  }

  // "%hx"
  function ReadHex(s: seq<Byte>): Option<nat> {
    var t := s[SkipSpaces(s)..];
    var n := LeadingHex(t);
    if n == 0 then None else Some(FromHex(t[..n]) % USHORT)
  }

  lemma {:induction false} SkipSpacesIs(s: seq<Byte>, n: nat)
    requires n <= |s| && (forall i :: 0 <= i < n ==> s[i] == SPACE) && (n < |s| ==> s[n] != SPACE)
    ensures SkipSpaces(s) == n
  {
    if n > 0 { SkipSpacesIs(s[1..], n - 1); }
  }

  lemma {:induction false} LeadingHexIs(s: seq<Byte>, n: nat)
    requires n <= |s| && (forall i :: 0 <= i < n ==> IsHex(s[i])) && (n < |s| ==> !IsHex(s[n]))
    ensures LeadingHex(s) == n
  {
    if n > 0 { LeadingHexIs(s[1..], n - 1); }
  }

  lemma Hex4Reads(n: nat, rest: seq<Byte>)
    requires n < USHORT && (rest == [] || !IsHex(rest[0]))
    ensures ReadHex(Hex4(n) + rest) == Some(n)
  {
    hide Hex, FromHex, SkipSpaces, LeadingHex, Spaces;
    var s, k, h := Hex4(n) + rest, 4 - |Hex(n)|, Hex(n);
    HexReads(n);
    assert s[k] == h[0];
    SkipSpacesIs(s, k);
    assert s[k..] == h + rest;
    LeadingHexIs(h + rest, |h|);
    assert (h + rest)[..|h|] == h;
  }

  // ----- layout_dump and the start of layout_parse

  function Dump(t: Tree): seq<Byte>
    requires Printable(t)
  {
    Hex4(Checksum(Text(t))) + [COMMA] + Text(t)
  }

  // Fewer than five bytes are not part of this model.
  function Parse(s: seq<Byte>): Option<Tree>
    requires |s| >= 5
  {
    var layout := s[5..];
    if ReadHex(s) != Some(Checksum(layout)) then None
    else match Construct(layout)
      case None => None
      case Some((t, rest)) => if rest == [] then Some(t) else None
  }

  /** A dump always passes the checksum. It gives the same tree without panes,
      or nothing if a leaf without a pane comes before another cell. */
  lemma ParseDump(t: Tree)
    requires Printable(t)
    ensures |Dump(t)| >= 5 && Parse(Dump(t)) == if Numbered(t) then Some(Bare(t)) else None
  {
    hide Hex4, Checksum, ReadHex, Construct, Text, Bare;
    var c, rest := Checksum(Text(t)), [COMMA] + Text(t);
    assert Dump(t) == Hex4(c) + rest;
    Hex4Reads(c, rest);
    assert Dump(t)[5..] == Text(t);
    assert Text(t) + [] == Text(t);
    if Numbered(t) { ConstructReads(t, []); } else { ConstructFails(t, []); }
  }

  // ----- Restoring a window

  // layout_count_cells
  function CountCells(t: Tree): nat
    decreases t, 1
  {
    match t
    case Leaf(_, _, _, _, _) => 1
    case Node(_, _, _, _, _, kids) => CountAll(kids)
  }

  function CountAll(kids: seq<Tree>): nat
    decreases kids, 0
  {
    if kids == [] then 0 else CountCells(kids[0]) + CountAll(kids[1..])
  }

  // layout_assign: panes into leaves in order; the ones left over.
  function Assign(t: Tree, ps: seq<Option<PaneId>>): (r: (Tree, seq<Option<PaneId>>))
    requires |ps| >= CountCells(t)
    ensures |r.1| == |ps| - CountCells(t)
    decreases t, 1
  {
    match t
    case Leaf(sx, sy, xoff, yoff, _) => (Leaf(sx, sy, xoff, yoff, ps[0]), ps[1..])
    case Node(dir, sx, sy, xoff, yoff, kids) =>
      var (r, rest) := AssignAll(kids, ps);
      (Node(dir, sx, sy, xoff, yoff, r), rest)
  }

  function AssignAll(kids: seq<Tree>, ps: seq<Option<PaneId>>): (r: (seq<Tree>, seq<Option<PaneId>>))
    requires |ps| >= CountAll(kids)
    ensures |r.1| == |ps| - CountAll(kids)
    decreases kids, 0
  {
    if kids == [] then ([], ps)
    else
      var (k, rest) := Assign(kids[0], ps);
      var (ks, left) := AssignAll(kids[1..], rest);
      ([k] + ks, left)
  }

  /** Assigning a tree's own panes to it without them gives the tree. */
  lemma {:induction false} AssignRestores(t: Tree, more: seq<Option<PaneId>>)
    ensures CountCells(Bare(t)) == |Panes(t)|
    ensures Assign(Bare(t), Panes(t) + more) == (t, more)
    decreases t, 1
  {
    if t.Leaf? {
      assert ([t.wp] + more)[1..] == more;
    } else {
      AssignAllRestores(t.kids, more);
    }
  }

  lemma {:induction false} AssignAllRestores(kids: seq<Tree>, more: seq<Option<PaneId>>)
    ensures CountAll(BareAll(kids)) == |PanesAll(kids)|
    ensures AssignAll(BareAll(kids), PanesAll(kids) + more) == (kids, more)
    decreases kids, 0
  {
    if kids == [] {
      assert PanesAll(kids) + more == more;
    } else {
      hide Assign, Bare, CountCells, Panes;
      var b := BareAll(kids);
      assert b != [] && b[0] == Bare(kids[0]) && b[1..] == BareAll(kids[1..]);
      AssignRestores(kids[0], PanesAll(kids[1..]) + more);
      AssignAllRestores(kids[1..], more);
      assert Panes(kids[0]) + (PanesAll(kids[1..]) + more) == PanesAll(kids) + more;
      assert [kids[0]] + kids[1..] == kids;
    }
  }

  /** The rest of layout_parse for as many panes as cells: the panes are
      assigned, the offsets fixed, and the layout is resized from its own size
      to the window's. */
  ghost function Restored(b: Tree, ps: seq<Option<PaneId>>, sx: int, sy: int): Tree
    requires |ps| == CountCells(b) && Sound(FixOffsets(Assign(b, ps).0))
  {
    var t := FixOffsets(Assign(b, ps).0);
    W.ResizeTree(W.Window(t.sx, t.sy, t), sx, sy)
  }

  lemma AxisUnchanged(root: Tree, d: Direction, now: int)
    requires Sound(root) && Size(root, d) >= now
    ensures var r := W.ResizeAxis(root, d, Size(root, d), now);
            && (Size(root, d) == now || Check(root, d) == 0 ==> r == root)
            && (Size(root, d) != now && Check(root, d) != 0 ==> Size(r, d) != Size(root, d))
            && Sound(r) && Size(r, Other(d)) == Size(root, Other(d)) && Check(r, Other(d)) == Check(root, Other(d))
  {
    AdjustFacts(root, d, W.Change(root, d, Size(root, d), now));
    W.AdjustNothing(root, d);
  }

  /** A window in any reachable state, restored from its own dump with its panes
      in their order, has the same layout again exactly if the layout is as
      large as the window or cannot be made smaller, on each axis. */
  lemma RestoreDump(w: W.Window)
    requires W.Invariant(w) && Printable(w.root)
    ensures |Dump(w.root)| >= 5 && Parse(Dump(w.root)) == Some(Bare(w.root))
    ensures var ps := Panes(w.root);
            && |ps| == CountCells(Bare(w.root)) && Assign(Bare(w.root), ps).0 == w.root
            && Sound(FixOffsets(w.root))
            && (Restored(Bare(w.root), ps, w.sx, w.sy) == w.root <==> W.Exact(w))
  {
    hide Dump, Parse, Bare, Assign, CountCells, Sound, Printable, W.OneLeafPerPane, Check, W.ResizeAxis;
    var t, ps := w.root, Panes(w.root);
    W.InvariantPanes(w);
    PanesNumbered(t);
    ParseDump(t);
    AssignRestores(t, []);
    assert ps + [] == ps;
    SoundInhabited(t);
    var a := W.ResizeAxis(t, LeftRight, t.sx, w.sx);
    AxisUnchanged(t, LeftRight, w.sx);
    SoundInhabited(a);
    AxisUnchanged(a, TopBottom, w.sy);
    W.ResizeTreeIs(W.Window(t.sx, t.sy, t), w.sx, w.sy);
    W.BothAxes(w);
  }

  /** The layout a close has left too wide is not restored: a fresh window of 5
      by 5 split in two, shrunk to 3 columns and left with one pane keeps 5
      columns, but its dump comes back narrower. */
  lemma DumpShrinks()
    ensures var ops := [W.Split([], LeftRight, -1, false, 1), W.Resize(3, 5), W.Close([0])];
            && W.Invariant(W.Init(5, 5, 0)) && W.RunEnabled(W.Init(5, 5, 0), ops)
            && W.Run(W.Init(5, 5, 0), ops) == W.WIDE
    ensures var t, ps := W.WIDE.root, Panes(W.WIDE.root);
            && |Dump(t)| >= 5 && Parse(Dump(t)) == Some(Bare(t))
            && |ps| == CountCells(Bare(t)) && Assign(Bare(t), ps).0 == t
            && Sound(FixOffsets(t)) && Restored(Bare(t), ps, W.WIDE.sx, W.WIDE.sy) != t
  {
    hide W.Run, W.RunEnabled, W.Invariant, W.Step, Dump, Parse, Bare, Assign, Restored, Sound;
    W.SqueezedRun();
    assert !W.Exact(W.WIDE) by {
      assert Size(W.WIDE.root, LeftRight) != W.Extent(W.WIDE, LeftRight) && Check(W.WIDE.root, LeftRight) != 0;
    }
    RestoreDump(W.WIDE);
  }
}
