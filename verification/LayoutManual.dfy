// Layout strings written out: the example of the manual, and one as it is
// printed now.
module LayoutManual {
  import opened Common
  import opened Decimals
  import opened LayoutTree
  import opened LayoutText
  import opened LayoutDump

  lemma Numbers()
    ensures Decimal(0) == [0x30] && Decimal(1) == [0x31] && Decimal(2) == [0x32]
    ensures Decimal(23) == [0x32, 0x33] && Decimal(24) == [0x32, 0x34] && Decimal(25) == [0x32, 0x35]
    ensures Decimal(48) == [0x34, 0x38] && Decimal(79) == [0x37, 0x39] && Decimal(80) == [0x38, 0x30]
    ensures Decimal(159) == [0x31, 0x35, 0x39]
  {
    assert Decimal(4) == [0x34] && Decimal(7) == [0x37] && Decimal(8) == [0x38] && Decimal(15) == [0x31, 0x35];
  }

  lemma PairText(t: Tree, a: Tree, b: Tree)
    requires Printable(t) && t.Node? && t.kids == [a, b]
    ensures Printable(a) && Printable(b)
    ensures Text(t) == CellText(t) + ([Opener(t.dir)] + (Text(a) + [COMMA] + Text(b)) + [Closer(t.dir)])
  {
    hide CellText;
    assert a in t.kids && b in t.kids && t.kids[1..] == [b];
    assert TextAll([b]) == Text(b);
    assert TextAll(t.kids) == Text(a) + [COMMA] + Text(b);
  }

  // ----- The example of the manual

  // Two panes side by side, as tmux.1:1002 shows their layout.
  const MANUAL :=
    Node(LeftRight, 159, 48, 0, 0, [Leaf(79, 48, 0, 0, None), Leaf(79, 48, 80, 0, None)])

  // "159x48,0,0{79x48,0,0,79x48,80,0}"
  const MANUAL_TEXT: seq<Byte> := [
    0x31, 0x35, 0x39, 0x78, 0x34, 0x38, 0x2c, 0x30, 0x2c, 0x30, 0x7b, 0x37, 0x39, 0x78, 0x34, 0x38,
    0x2c, 0x30, 0x2c, 0x30, 0x2c, 0x37, 0x39, 0x78, 0x34, 0x38, 0x2c, 0x38, 0x30, 0x2c, 0x30, 0x7d]

  lemma ManualLeft()
    ensures Text(Leaf(79, 48, 0, 0, None)) == [0x37, 0x39, 0x78, 0x34, 0x38, 0x2c, 0x30, 0x2c, 0x30]
  {
    hide Decimal;
    Numbers();
  }

  lemma ManualRight()
    ensures Text(Leaf(79, 48, 80, 0, None)) == [0x37, 0x39, 0x78, 0x34, 0x38, 0x2c, 0x38, 0x30, 0x2c, 0x30]
  {
    hide Decimal;
    Numbers();
  }

  lemma RootCell(t: Tree)
    requires t.Node? && t.sx == 159 && t.sy == 48 && t.xoff == 0 && t.yoff == 0
    ensures CellText(t) == ROOT_CELL
  {
    hide Decimal;
    Numbers();
  }

  lemma ManualKids()
    ensures var a, b := Text(Leaf(79, 48, 0, 0, None)), Text(Leaf(79, 48, 80, 0, None));
            a + [COMMA] + b == [
              0x37, 0x39, 0x78, 0x34, 0x38, 0x2c, 0x30, 0x2c, 0x30, 0x2c, 0x37, 0x39, 0x78, 0x34, 0x38, 0x2c,
              0x38, 0x30, 0x2c, 0x30]
  {
    hide Text;
    ManualLeft();
    ManualRight();
  }

  lemma ManualText()
    ensures Printable(MANUAL) && Text(MANUAL) == MANUAL_TEXT
  {
    hide Text, TextAll, CellText, Printable, Decimal, Opener, Closer;
    ManualPrints();
    PairText(MANUAL, MANUAL.kids[0], MANUAL.kids[1]);
    RootCell(MANUAL);
    ManualKids();
    ManualPieces();
  }

  lemma ManualPieces()
    ensures ROOT_CELL + ([0x7b] + [
              0x37, 0x39, 0x78, 0x34, 0x38, 0x2c, 0x30, 0x2c, 0x30, 0x2c, 0x37, 0x39, 0x78, 0x34, 0x38, 0x2c,
              0x38, 0x30, 0x2c, 0x30] + [0x7d])
            == MANUAL_TEXT
  {}

  lemma ManualPrints()
    ensures Printable(MANUAL) && Opener(LeftRight) == 0x7b && Closer(LeftRight) == 0x7d
  {}

  lemma ManualSum0()
    requires Checksum(MANUAL_TEXT[..0]) == 0
    ensures Checksum(MANUAL_TEXT[..2]) == 32845
  {
    hide Checksum;
    SumNext(MANUAL_TEXT, 0, 0, 49);
    SumNext(MANUAL_TEXT, 1, 49, 32845);
  }

  lemma ManualSum1()
    requires Checksum(MANUAL_TEXT[..2]) == 32845
    ensures Checksum(MANUAL_TEXT[..4]) == 57511
  {
    hide Checksum;
    SumNext(MANUAL_TEXT, 2, 32845, 49247);
    SumNext(MANUAL_TEXT, 3, 49247, 57511);
  }

  lemma ManualSum2()
    requires Checksum(MANUAL_TEXT[..4]) == 57511
    ensures Checksum(MANUAL_TEXT[..8]) == 65124
  {
    hide Checksum;
    SumNext(MANUAL_TEXT, 4, 57511, 61575);
    SumNext(MANUAL_TEXT, 5, 61575, 63611);
    SumNext(MANUAL_TEXT, 6, 63611, 64617);
    SumNext(MANUAL_TEXT, 7, 64617, 65124);
  }

  lemma ManualSum3()
    requires Checksum(MANUAL_TEXT[..8]) == 65124
    ensures Checksum(MANUAL_TEXT[..12]) == 20588
  {
    hide Checksum;
    SumNext(MANUAL_TEXT, 8, 65124, 32606);
    SumNext(MANUAL_TEXT, 9, 32606, 16351);
    SumNext(MANUAL_TEXT, 10, 16351, 41066);
    SumNext(MANUAL_TEXT, 11, 41066, 20588);
  }

  lemma ManualSum4()
    requires Checksum(MANUAL_TEXT[..12]) == 20588
    ensures Checksum(MANUAL_TEXT[..16]) == 58749
  {
    hide Checksum;
    SumNext(MANUAL_TEXT, 12, 20588, 10351);
    SumNext(MANUAL_TEXT, 13, 10351, 38063);
    SumNext(MANUAL_TEXT, 14, 38063, 51851);
    SumNext(MANUAL_TEXT, 15, 51851, 58749);
  }

  lemma ManualSum5()
    requires Checksum(MANUAL_TEXT[..16]) == 58749
    ensures Checksum(MANUAL_TEXT[..20]) == 24239
  {
    hide Checksum;
    SumNext(MANUAL_TEXT, 16, 58749, 62186);
    SumNext(MANUAL_TEXT, 17, 62186, 31141);
    SumNext(MANUAL_TEXT, 18, 31141, 48382);
    SumNext(MANUAL_TEXT, 19, 48382, 24239);
  }

  lemma ManualSum6()
    requires Checksum(MANUAL_TEXT[..20]) == 24239
    ensures Checksum(MANUAL_TEXT[..24]) == 46738
  {
    hide Checksum;
    SumNext(MANUAL_TEXT, 20, 24239, 44931);
    SumNext(MANUAL_TEXT, 21, 44931, 55288);
    SumNext(MANUAL_TEXT, 22, 55288, 27701);
    SumNext(MANUAL_TEXT, 23, 27701, 46738);
  }

  lemma ManualSum7()
    requires Checksum(MANUAL_TEXT[..24]) == 46738
    ensures Checksum(MANUAL_TEXT[..28]) == 43979
  {
    hide Checksum;
    SumNext(MANUAL_TEXT, 24, 46738, 23421);
    SumNext(MANUAL_TEXT, 25, 23421, 44534);
    SumNext(MANUAL_TEXT, 26, 44534, 22311);
    SumNext(MANUAL_TEXT, 27, 22311, 43979);
  }

  lemma ManualSum8()
    requires Checksum(MANUAL_TEXT[..28]) == 43979
    ensures Checksum(MANUAL_TEXT[..32]) == 47970
  {
    hide Checksum;
    SumNext(MANUAL_TEXT, 28, 43979, 54805);
    SumNext(MANUAL_TEXT, 29, 54805, 60214);
    SumNext(MANUAL_TEXT, 30, 60214, 30155);
    SumNext(MANUAL_TEXT, 31, 30155, 47970);
  }

  lemma ManualChecksum()
    ensures Checksum(MANUAL_TEXT) == 0xbb62
  {
    hide Checksum;
    EmptySum();
    ManualSum0();
    ManualSum1();
    ManualSum2();
    ManualSum3();
    ManualSum4();
    ManualSum5();
    ManualSum6();
    ManualSum7();
    ManualSum8();
    assert MANUAL_TEXT[..32] == MANUAL_TEXT;
  }

  lemma ManualPrefix()
    ensures Hex4(0xbb62) == [0x62, 0x62, 0x36, 0x32]
  {
    assert Hex(0xb) == [0x62] && Hex(0xbb) == [0x62, 0x62] && Hex(0xbb6) == [0x62, 0x62, 0x36];
  }

  /** A smaller checksum is filled up with spaces. */
  lemma ShortPrefix()
    ensures Hex4(5) == [0x20, 0x20, 0x20, 0x35] && Hex4(0xfa) == [0x20, 0x20, 0x66, 0x61]
  {
    assert Hex(5) == [0x35] && Hex(0xf) == [0x66] && Hex(0xfa) == [0x66, 0x61];
  }

  /** The string of the manual is "bb62," and this text. Its checksum is right,
      but it is refused: its first pane takes the width of the second for its
      number. */
  lemma ManualRefused()
    ensures Printable(MANUAL) && Dump(MANUAL) == [0x62, 0x62, 0x36, 0x32, 0x2c] + MANUAL_TEXT
    ensures Parse([0x62, 0x62, 0x36, 0x32, 0x2c] + MANUAL_TEXT) == None
  {
    hide Text, Checksum, Hex4, Parse;
    ManualText();
    ManualChecksum();
    ManualPrefix();
    ParseDump(MANUAL);
    assert Dump(MANUAL) == [0x62, 0x62, 0x36, 0x32, 0x2c] + MANUAL_TEXT;
    assert !Numbered(MANUAL);
  }

  // ----- With pane numbers

  // Two panes on top of each other, and one to the left of them.
  const COLUMN := Node(TopBottom, 79, 48, 80, 0, [Leaf(79, 24, 80, 0, Some(1)), Leaf(79, 23, 80, 25, Some(2))])
  const NUMBERED := Node(LeftRight, 159, 48, 0, 0, [Leaf(79, 48, 0, 0, Some(0)), COLUMN])

  // "159x48,0,0", "79x48,0,0,0", "79x48,80,0" and "79x24,80,0,1,79x23,80,25,2"
  const ROOT_CELL: seq<Byte> := [0x31, 0x35, 0x39, 0x78, 0x34, 0x38, 0x2c, 0x30, 0x2c, 0x30]
  const LEFT_CELL: seq<Byte> := [0x37, 0x39, 0x78, 0x34, 0x38, 0x2c, 0x30, 0x2c, 0x30, 0x2c, 0x30]
  const COLUMN_CELL: seq<Byte> := [0x37, 0x39, 0x78, 0x34, 0x38, 0x2c, 0x38, 0x30, 0x2c, 0x30]
  const COLUMN_CELLS: seq<Byte> := [
    0x37, 0x39, 0x78, 0x32, 0x34, 0x2c, 0x38, 0x30, 0x2c, 0x30, 0x2c, 0x31, 0x2c, 0x37, 0x39, 0x78,
    0x32, 0x33, 0x2c, 0x38, 0x30, 0x2c, 0x32, 0x35, 0x2c, 0x32]

  lemma NumberedLeft()
    ensures Text(Leaf(79, 48, 0, 0, Some(0))) == [0x37, 0x39, 0x78, 0x34, 0x38, 0x2c, 0x30, 0x2c, 0x30, 0x2c, 0x30]
  {
    hide Decimal;
    Numbers();
  }

  lemma NumberedTop()
    ensures Text(Leaf(79, 24, 80, 0, Some(1))) == [0x37, 0x39, 0x78, 0x32, 0x34, 0x2c, 0x38, 0x30, 0x2c, 0x30, 0x2c, 0x31]
  {
    hide Decimal;
    Numbers();
  }

  lemma NumberedBottom()
    ensures Text(Leaf(79, 23, 80, 25, Some(2))) == [0x37, 0x39, 0x78, 0x32, 0x33, 0x2c, 0x38, 0x30, 0x2c, 0x32, 0x35, 0x2c, 0x32]
  {
    hide Decimal;
    Numbers();
  }

  lemma ColumnCell(t: Tree)
    requires t.Node? && t.sx == 79 && t.sy == 48 && t.xoff == 80 && t.yoff == 0
    ensures CellText(t) == COLUMN_CELL
  {
    hide Decimal;
    Numbers();
  }

  lemma ColumnKids()
    ensures Text(Leaf(79, 24, 80, 0, Some(1))) + [COMMA] + Text(Leaf(79, 23, 80, 25, Some(2))) == COLUMN_CELLS
  {
    hide Text;
    NumberedTop();
    NumberedBottom();
  }

  lemma NumberedPrints()
    ensures Printable(NUMBERED) && Printable(COLUMN) && Numbered(COLUMN)
    ensures Opener(LeftRight) == 0x7b && Closer(LeftRight) == 0x7d
    ensures Opener(TopBottom) == 0x5b && Closer(TopBottom) == 0x5d
  {}

  /** What is printed now has pane numbers, braces around panes side by side and
      brackets around panes on top of each other, and reads back:
      159x48,0,0{79x48,0,0,0,79x48,80,0[79x24,80,0,1,79x23,80,25,2]}. */
  lemma NumberedReads()
    ensures var column := COLUMN_CELL + ([0x5b] + COLUMN_CELLS + [0x5d]);
            var text := ROOT_CELL + ([0x7b] + (LEFT_CELL + [0x2c] + column) + [0x7d]);
            Printable(NUMBERED) && Text(NUMBERED) == text && Construct(text) == Some((Bare(NUMBERED), []))
  {
    hide Text, TextAll, CellText, Printable, Construct, Bare, Decimal, Numbered, Opener, Closer;
    NumberedPrints();
    PairText(NUMBERED, NUMBERED.kids[0], COLUMN);
    PairText(COLUMN, COLUMN.kids[0], COLUMN.kids[1]);
    RootCell(NUMBERED);
    ColumnCell(COLUMN);
    NumberedLeft();
    ColumnKids();
    PairNumbered();
    assert Text(NUMBERED) + [] == Text(NUMBERED);
    ConstructReads(NUMBERED, []);
  }

  lemma PairNumbered()
    ensures Numbered(NUMBERED)
  {
    assert Numbered(COLUMN);
    assert NUMBERED.kids[1..] == [COLUMN] && NumberedAll([COLUMN]);
    assert NumberedAll(NUMBERED.kids);
  }
}
