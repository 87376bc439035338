// Layout strings that have a byte changed or end early, as a NUL in them makes
// them do (layout-custom.c).
module LayoutCut {
  import opened Common
  import opened Decimals
  import opened LayoutTree
  import opened LayoutText
  import opened LayoutDump

  // ----- Printed texts hold no NUL

  lemma DigitsNotNul(t: seq<Byte>)
    requires AllDigits(t)
    ensures 0 !in t
  {}

  lemma CellNotNul(t: Tree)
    requires Printable(t)
    ensures 0 !in CellText(t)
  {
    hide Decimal;
    DigitsNotNul(Decimal(t.sx));
    DigitsNotNul(Decimal(t.sy));
    DigitsNotNul(Decimal(t.xoff));
    DigitsNotNul(Decimal(t.yoff));
    if t.Leaf? && t.wp.Some? { DigitsNotNul(Decimal(t.wp.value)); }
  }

  lemma {:induction false} TextNotNul(t: Tree)
    requires Printable(t)
    ensures 0 !in Text(t)
    decreases t, 1
  {
    hide CellText;
    CellNotNul(t);
    if t.Node? { TextAllNotNul(t.kids); }
  }

  lemma {:induction false} TextAllNotNul(kids: seq<Tree>)
    requires kids != [] && forall k | k in kids :: Printable(k)
    ensures 0 !in TextAll(kids)
    decreases kids, 0
  {
    hide Text, Printable;
    assert kids[0] in kids;
    TextNotNul(kids[0]);
    if |kids| > 1 { TextAllNotNul(kids[1..]); }
  }

  lemma DumpNotNul(t: Tree)
    requires Printable(t)
    ensures 0 !in Dump(t) && |Dump(t)| == |Text(t)| + 5 && Dump(t)[5..] == Text(t)
  {
    hide Text, Checksum, Hex;
    TextNotNul(t);
    var h := Hex4(Checksum(Text(t)));
    assert forall i :: 0 <= i < |h| ==> h[i] != 0;
  }

  // ----- One cell cut short

  lemma FieldCut(n: nat, end: Byte, rest: seq<Byte>, k: nat)
    requires !IsDigit(end) && k <= |Decimal(n) + [end] + rest|
    ensures Field((Decimal(n) + [end] + rest)[..k], end) ==
            if k <= |Decimal(n)| then None else Some((n, rest[..k - |Decimal(n)| - 1]))
  {
    var d, s := Decimal(n), Decimal(n) + [end] + rest;
    if k <= |d| {
      assert s[..k] == d[..k];
      LeadingIs(s[..k], k);
    } else {
      var m := k - |d| - 1;
      assert s[..k] == d + [end] + rest[..m];
      FieldReads(n, end, rest[..m]);
    }
  }

  /** Where the last of the four numbers of a cell begins. */
  function LastAt(t: Tree): nat
    requires t.sx >= 0 && t.sy >= 0 && t.xoff >= 0
  {
    |Decimal(t.sx)| + |Decimal(t.sy)| + |Decimal(t.xoff)| + 3
  }

  lemma DigitsCut(n: nat, k: nat)
    requires k <= |Decimal(n)|
    ensures var c := Decimal(n)[..k]; Leading(c) == k == |c|
  {
    LeadingIs(Decimal(n)[..k], k);
  }

  /** The last number and the pane number, cut short after at least one byte. */
  lemma LastCut(yoff: nat, id: Option<nat>, k: nat)
    requires 1 <= k <= |Decimal(yoff) + PaneText(id)|
    ensures var c := (Decimal(yoff) + PaneText(id))[..k];
            Leading(c) > 0 && AfterPane(c[Leading(c)..]) == []
  {
    hide Decimal, Leading;
    var d := Decimal(yoff);
    var c := (d + PaneText(id))[..k];
    if k <= |d| {
      assert c == d[..k];
      DigitsCut(yoff, k);
    } else {
      var m := k - |d| - 1;
      var e := [COMMA] + Decimal(id.value)[..m];
      assert c == d + e;
      DecimalReads(yoff, e);
      DigitsCut(id.value, m);
      assert e[1..] == Decimal(id.value)[..m];
    }
  }

  lemma HeaderCut(t: Tree, k: nat)
    requires Printable(t) && k <= |CellText(t)|
    ensures var r := ReadHeader(CellText(t)[..k]);
            if k <= LastAt(t) then r == None else r.Some? && r.value.rest == []
  {
    hide Field, Decimal, Value, Leading, PaneText, AfterPane;
    PrintableHere(t);
    var c := Decimal(t.yoff) + PaneText(PaneOf(t));
    var b := Decimal(t.xoff) + [COMMA] + c;
    var a := Decimal(t.sy) + [COMMA] + b;
    CellParts(t);
    FieldCut(t.sx, LETTER_X, a, k);
    if k > |Decimal(t.sx)| {
      var k1 := k - |Decimal(t.sx)| - 1;
      FieldCut(t.sy, COMMA, b, k1);
      if k1 > |Decimal(t.sy)| {
        var k2 := k1 - |Decimal(t.sy)| - 1;
        FieldCut(t.xoff, COMMA, c, k2);
        if k2 > |Decimal(t.xoff)| {
          var k3 := k2 - |Decimal(t.xoff)| - 1;
          if k3 > 0 { LastCut(t.yoff, PaneOf(t), k3); } else { NothingLeads(); }
        }
      }
    }
  }

  lemma NothingLeads()
    ensures Leading([]) == 0 && forall c: seq<Byte> :: c[..0] == []
  {}

  lemma CellParts(t: Tree)
    requires Printable(t)
    ensures CellText(t) == Decimal(t.sx) + [LETTER_X] +
                           (Decimal(t.sy) + [COMMA] + (Decimal(t.xoff) + [COMMA] + (Decimal(t.yoff) + PaneText(PaneOf(t)))))
    ensures |CellText(t)| == LastAt(t) + |Decimal(t.yoff) + PaneText(PaneOf(t))|
  {
    hide Decimal;
    Nested(Decimal(t.sx), Decimal(t.sy), Decimal(t.xoff), Decimal(t.yoff), PaneText(PaneOf(t)), []);
    assert CellText(t) + [] == CellText(t);
    assert PaneText(PaneOf(t)) + [] == PaneText(PaneOf(t));
  }

  // ----- Trees cut short

  /** The cut leaves the first cell's numbers, but nothing after them. */
  predicate InNumbers(t: Tree, k: nat)
    requires Printable(t)
  {
    LastAt(t) < k <= |CellText(t)|
  }

  /** A text cut short reads as a single leaf if the cut is in the numbers of
      its first cell, and not at all elsewhere. */
  lemma {:induction false} ConstructCut(t: Tree, k: nat)
    requires Printable(t) && k < |Text(t)|
    ensures var r := Construct(Text(t)[..k]);
            if InNumbers(t, k) then r.Some? && r.value.1 == [] && r.value.0.Leaf? else r == None
    decreases t, 1
  {
    hide ReadHeader, CellText, ConstructAll, Printable, TextAll, LastAt;
    PrintableHere(t);
    if k <= |CellText(t)| {
      assert Text(t)[..k] == CellText(t)[..k];
      HeaderCut(t, k);
    } else {
      var inner := [Opener(t.dir)] + TextAll(t.kids) + [Closer(t.dir)];
      var m := k - |CellText(t)|;
      assert Text(t) == CellText(t) + inner;
      assert Text(t)[..k] == CellText(t) + inner[..m];
      HeaderReads(t, inner[..m]);
      assert inner[..m] == ([Opener(t.dir)] + TextAll(t.kids))[..m];
      ConstructAllCut(t.kids, Opener(t.dir), m);
    }
  }

  lemma {:induction false} ConstructAllCut(kids: seq<Tree>, lead: Byte, k: nat)
    requires kids != [] && (forall t | t in kids :: Printable(t)) && 1 <= k <= 1 + |TextAll(kids)|
    ensures var r := ConstructAll(([lead] + TextAll(kids))[..k]); r.Some? ==> r.value.1 == []
    decreases kids, 0
  {
    hide Construct, Text, Printable, CellText, InNumbers;
    var s, t, p := ([lead] + TextAll(kids))[..k], kids[0], k - 1;
    assert Printable(t) by { assert t in kids; }
    assert s[1..] == TextAll(kids)[..p];
    if p < |Text(t)| {
      assert TextAll(kids)[..|Text(t)|] == Text(t);
      assert TextAll(kids)[..p] == TextAll(kids)[..|Text(t)|][..p];
      ConstructCut(t, p);
    } else if |kids| == 1 || p == |Text(t)| {
      assert s[1..] == Text(t) + [];
      ConstructWhole(t);
    } else {
      var m := p - |Text(t)|;
      var tail := ([COMMA] + TextAll(kids[1..]))[..m];
      assert s[1..] == Text(t) + tail;
      if !Numbered(t) {
        ConstructFails(t, tail);
      } else if t.Leaf? && t.wp == None {
        var n, more := TextStarts(kids[1..], []);
        assert TextAll(kids[1..]) + [] == TextAll(kids[1..]);
        LeafText(t);
        assert tail == [COMMA] + TextAll(kids[1..])[..m - 1];
        UnnumberedCut(t, n, more, m - 1);
      } else {
        ConstructReads(t, tail);
        ConstructAllCut(kids[1..], COMMA, m);
      }
    }
  }

  lemma ConstructWhole(t: Tree)
    requires Printable(t)
    ensures var r := Construct(Text(t) + []); r.Some? ==> r.value.1 == []
  {
    hide Construct, Text, Printable;
    if Numbered(t) { ConstructReads(t, []); } else { ConstructFails(t, []); }
  }

  /** A leaf without a pane number before a cell that is cut short. */
  lemma UnnumberedCut(l: Tree, n: nat, more: seq<Byte>, m: nat)
    requires l.Leaf? && l.wp == None && Printable(l) && m <= |Decimal(n) + ([LETTER_X] + more)|
    ensures var r := Construct(CellText(l) + ([COMMA] + (Decimal(n) + ([LETTER_X] + more))[..m]));
            r.Some? ==> r.value.1 == []
  {
    hide Decimal, ReadHeader, Value, Field, Printable, CellText, Leading, ConstructAll, PaneText, AfterPane;
    PrintableHere(l);
    var e := (Decimal(n) + ([LETTER_X] + more))[..m];
    var tail := [COMMA] + e;
    NumbersRead(l.sx, l.sy, l.xoff, l.yoff, None, tail);
    BareNumbers(l);
    DecimalReads(l.yoff, tail);
    PaneHere(None, tail);
    Concat(CellText(l), PaneText(None), tail);
    AfterComma(e);
    NumberCut(n, more, m);
  }

  lemma AfterComma(e: seq<Byte>)
    ensures var d := [COMMA] + e; d[1..] == e && d[0..] == d && !IsDigit(d[0]) && AfterPane(d) == e[Leading(e)..]
  {}

  lemma NumberCut(n: nat, more: seq<Byte>, m: nat)
    requires m <= |Decimal(n) + ([LETTER_X] + more)|
    ensures var e := (Decimal(n) + ([LETTER_X] + more))[..m];
            e[Leading(e)..] == [] || e[Leading(e)] == LETTER_X
  {
    hide Decimal, Leading;
    var e := (Decimal(n) + ([LETTER_X] + more))[..m];
    if m <= |Decimal(n)| {
      assert e == Decimal(n)[..m];
      DigitsCut(n, m);
    } else {
      var f := ([LETTER_X] + more)[..m - |Decimal(n)|];
      assert e == Decimal(n) + f;
      DecimalReads(n, f);
    }
  }

  // ----- Damaged dumps

  lemma ParseCut(t: Tree, i: nat)
    requires Printable(t) && 5 <= i < |Dump(t)|
    ensures |Dump(t)| == |Text(t)| + 5
    ensures Parse(Dump(t)[..i]).Some? <==>
            InNumbers(t, i - 5) && Checksum(Text(t)[..i - 5]) == Checksum(Text(t))
  {
    hide Hex4, Checksum, ReadHex, Construct, Text, InNumbers;
    DumpNotNul(t);
    var c, l := Checksum(Text(t)), Text(t)[..i - 5];
    assert Dump(t)[..i] == Hex4(c) + ([COMMA] + l);
    Hex4Reads(c, [COMMA] + l);
    assert Dump(t)[..i][5..] == l;
    ConstructCut(t, i - 5);
  }

  /** A dump with one byte of its layout changed is refused, unless the change
      is to a NUL in the numbers of the first cell and what is left in front of
      it happens to have the same checksum. */
  lemma ParseDamaged(t: Tree, i: nat, b: Byte)
    requires Printable(t) && 5 <= i < |Dump(t)| && b != Dump(t)[i]
    ensures |Dump(t)| == |Text(t)| + 5 && |CString(Dump(t)[i := b])| >= 5
    ensures Parse(CString(Dump(t)[i := b])).Some? <==>
            b == 0 && InNumbers(t, i - 5) && Checksum(Text(t)[..i - 5]) == Checksum(Text(t))
  {
    hide Hex4, Checksum, ReadHex, Construct, Text, InNumbers, CString;
    DumpNotNul(t);
    var s, c, l := Dump(t)[i := b], Checksum(Text(t)), Text(t);
    if b == 0 {
      CStringIs(s, i);
      assert s[..i] == Dump(t)[..i];
      ParseCut(t, i);
    } else {
      CStringIs(s, |s|);
      assert s[..|s|] == s && l[i - 5] == Dump(t)[i];
      assert s == Hex4(c) + ([COMMA] + l[i - 5 := b]);
      Hex4Reads(c, [COMMA] + l[i - 5 := b]);
      assert s[5..] == l[i - 5 := b];
      ByteChanged(l, i - 5, b);
    }
  }

  // "23x9,0,0,20": its last byte changed to NUL is accepted.
  const UNLUCKY := Leaf(23, 9, 0, 0, Some(20))

  lemma UnluckyText()
    ensures Printable(UNLUCKY)
    ensures Text(UNLUCKY) == [0x32, 0x33, 0x78, 0x39, 0x2c, 0x30, 0x2c, 0x30, 0x2c, 0x32, 0x30]
    ensures LastAt(UNLUCKY) == 7 && |CellText(UNLUCKY)| == 11
  {
    assert Decimal(2) == [0x32] && Decimal(23) == [0x32, 0x33] && Decimal(9) == [0x39] && Decimal(0) == [0x30];
    assert Decimal(20) == [0x32, 0x30];
  }

  lemma UnluckyChecksum()
    ensures var s := [0x32, 0x33, 0x78, 0x39, 0x2c, 0x30, 0x2c, 0x30, 0x2c, 0x32];
            Checksum(s + [0x30]) == Checksum(s)
  {
    hide Checksum;
    var s: seq<Byte> := [0x32, 0x33, 0x78, 0x39, 0x2c, 0x30, 0x2c, 0x30, 0x2c, 0x32, 0x30];
    EmptySum();
    SumNext(s, 0, 0, 50);
    SumNext(s, 1, 50, 76);
    SumNext(s, 2, 76, 158);
    SumNext(s, 3, 158, 136);
    SumNext(s, 4, 136, 112);
    SumNext(s, 5, 112, 104);
    SumNext(s, 6, 104, 96);
    SumNext(s, 7, 96, 96);
    SumNext(s, 8, 96, 92);
    SumNext(s, 9, 92, 96);
    SumNext(s, 10, 96, 96);
    assert s[..11] == s[..10] + [0x30];
    assert s[..10] == [0x32, 0x33, 0x78, 0x39, 0x2c, 0x30, 0x2c, 0x30, 0x2c, 0x32];
  }

  lemma UnluckyAccepted()
    ensures Printable(UNLUCKY) && |Dump(UNLUCKY)| == 16 && |CString(Dump(UNLUCKY)[15 := 0])| >= 5
    ensures Parse(CString(Dump(UNLUCKY)[15 := 0])).Some?
  {
    hide Checksum, Text, Parse, CString, Hex4, CellText, Decimal;
    UnluckyText();
    UnluckyChecksum();
    DumpNotNul(UNLUCKY);
    var s: seq<Byte> := [0x32, 0x33, 0x78, 0x39, 0x2c, 0x30, 0x2c, 0x30, 0x2c, 0x32];
    assert Text(UNLUCKY) == s + [0x30] && Text(UNLUCKY)[..10] == s;
    assert Dump(UNLUCKY)[15] == Text(UNLUCKY)[10];
    ParseDamaged(UNLUCKY, 15, 0);
  }
}
