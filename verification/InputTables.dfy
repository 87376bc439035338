// The transition tables of the escape-sequence parser (input.c:200-666).
module InputTables {
  import opened Common

  datatype State =
    | Ground | EscEnter | EscIntermediate
    | CsiEnter | CsiParameter | CsiIntermediate | CsiIgnore
    | DcsEnter | DcsParameter | DcsIntermediate | DcsHandler | DcsEscape | DcsIgnore
    | OscString | ApcString | RenameString | ConsumeSt
    | Utf8Three | Utf8Two | Utf8One

  datatype Handler =
    | Print | Intermediate | Parameter | Input
    | C0Dispatch | EscDispatch | CsiDispatch | DcsDispatch
    | Utf8Open | Utf8Add | Utf8Close

  datatype Transition = Transition(first: int, last: int, handler: Option<Handler>, state: Option<State>)

  // Ends every table.
  const SENTINEL := Transition(-1, -1, None, None)

  // Transitions available from all states but dcs_handler, dcs_escape and the
  // UTF-8 ones.
  const ANYWHERE := [
    Transition(0x18, 0x18, Some(C0Dispatch), Some(Ground)),
    Transition(0x1a, 0x1a, Some(C0Dispatch), Some(Ground)),
    Transition(0x1b, 0x1b, None, Some(EscEnter))
  ]

  predicate HasAnywhere(s: State) {
    !s.DcsHandler? && !s.DcsEscape? && !s.Utf8Three? && !s.Utf8Two? && !s.Utf8One?
  }

  function Table(s: State): seq<Transition> {
    (if HasAnywhere(s) then ANYWHERE else []) + Rows(s)
  }

  function Rows(s: State): seq<Transition> {
    match s
    case Ground => [
      Transition(0x00, 0x17, Some(C0Dispatch), None),
      Transition(0x19, 0x19, Some(C0Dispatch), None),
      Transition(0x1c, 0x1f, Some(C0Dispatch), None),
      Transition(0x20, 0x7e, Some(Print), None),
      Transition(0x7f, 0x7f, None, None),
      Transition(0x80, 0xc1, Some(Print), None),
      Transition(0xc2, 0xdf, Some(Utf8Open), Some(Utf8One)),
      Transition(0xe0, 0xef, Some(Utf8Open), Some(Utf8Two)),
      Transition(0xf0, 0xf4, Some(Utf8Open), Some(Utf8Three)),
      Transition(0xf5, 0xff, Some(Print), None),
      SENTINEL]
    case EscEnter => [
      Transition(0x00, 0x17, Some(C0Dispatch), None),
      Transition(0x19, 0x19, Some(C0Dispatch), None),
      Transition(0x1c, 0x1f, Some(C0Dispatch), None),
      Transition(0x20, 0x2f, Some(Intermediate), Some(EscIntermediate)),
      Transition(0x30, 0x4f, Some(EscDispatch), Some(Ground)),
      Transition(0x50, 0x50, None, Some(DcsEnter)),
      Transition(0x51, 0x57, Some(EscDispatch), Some(Ground)),
      Transition(0x58, 0x58, None, Some(ConsumeSt)),
      Transition(0x59, 0x59, Some(EscDispatch), Some(Ground)),
      Transition(0x5a, 0x5a, Some(EscDispatch), Some(Ground)),
      Transition(0x5b, 0x5b, None, Some(CsiEnter)),
      Transition(0x5c, 0x5c, Some(EscDispatch), Some(Ground)),
      Transition(0x5d, 0x5d, None, Some(OscString)),
      Transition(0x5e, 0x5e, None, Some(ConsumeSt)),
      Transition(0x5f, 0x5f, None, Some(ApcString)),
      Transition(0x60, 0x6a, Some(EscDispatch), Some(Ground)),
      Transition(0x6b, 0x6b, None, Some(RenameString)),
      Transition(0x6c, 0x7e, Some(EscDispatch), Some(Ground)),
      Transition(0x7f, 0xff, None, None),
      SENTINEL]
    case EscIntermediate => [
      Transition(0x00, 0x17, Some(C0Dispatch), None),
      Transition(0x19, 0x19, Some(C0Dispatch), None),
      Transition(0x1c, 0x1f, Some(C0Dispatch), None),
      Transition(0x20, 0x2f, Some(Intermediate), None),
      Transition(0x30, 0x7e, Some(EscDispatch), Some(Ground)),
      Transition(0x7f, 0xff, None, None),
      SENTINEL]
    case CsiEnter => [
      Transition(0x00, 0x17, Some(C0Dispatch), None),
      Transition(0x19, 0x19, Some(C0Dispatch), None),
      Transition(0x1c, 0x1f, Some(C0Dispatch), None),
      Transition(0x20, 0x2f, Some(Intermediate), Some(CsiIntermediate)),
      Transition(0x30, 0x39, Some(Parameter), Some(CsiParameter)),
      Transition(0x3a, 0x3a, None, Some(CsiIgnore)),
      Transition(0x3b, 0x3b, Some(Parameter), Some(CsiParameter)),
      Transition(0x3c, 0x3f, Some(Intermediate), Some(CsiParameter)),
      Transition(0x40, 0x7e, Some(CsiDispatch), Some(Ground)),
      Transition(0x7f, 0xff, None, None),
      SENTINEL]
    case CsiParameter => [
      Transition(0x00, 0x17, Some(C0Dispatch), None),
      Transition(0x19, 0x19, Some(C0Dispatch), None),
      Transition(0x1c, 0x1f, Some(C0Dispatch), None),
      Transition(0x20, 0x2f, Some(Intermediate), Some(CsiIntermediate)),
      Transition(0x30, 0x39, Some(Parameter), None),
      Transition(0x3a, 0x3a, None, Some(CsiIgnore)),
      Transition(0x3b, 0x3b, Some(Parameter), None),
      Transition(0x3c, 0x3f, None, Some(CsiIgnore)),
      Transition(0x40, 0x7e, Some(CsiDispatch), Some(Ground)),
      Transition(0x7f, 0xff, None, None),
      SENTINEL]
    case CsiIntermediate => [
      Transition(0x00, 0x17, Some(C0Dispatch), None),
      Transition(0x19, 0x19, Some(C0Dispatch), None),
      Transition(0x1c, 0x1f, Some(C0Dispatch), None),
      Transition(0x20, 0x2f, Some(Intermediate), None),
      Transition(0x30, 0x3f, None, Some(CsiIgnore)),
      Transition(0x40, 0x7e, Some(CsiDispatch), Some(Ground)),
      Transition(0x7f, 0xff, None, None),
      SENTINEL]
    case CsiIgnore => [
      Transition(0x00, 0x17, Some(C0Dispatch), None),
      Transition(0x19, 0x19, Some(C0Dispatch), None),
      Transition(0x1c, 0x1f, Some(C0Dispatch), None),
      Transition(0x20, 0x3f, None, None),
      Transition(0x40, 0x7e, None, Some(Ground)),
      Transition(0x7f, 0xff, None, None),
      SENTINEL]
    case DcsEnter => [
      Transition(0x00, 0x17, None, None),
      Transition(0x19, 0x19, None, None),
      Transition(0x1c, 0x1f, None, None),
      Transition(0x20, 0x2f, Some(Intermediate), Some(DcsIntermediate)),
      Transition(0x30, 0x39, Some(Parameter), Some(DcsParameter)),
      Transition(0x3a, 0x3a, None, Some(DcsIgnore)),
      Transition(0x3b, 0x3b, Some(Parameter), Some(DcsParameter)),
      Transition(0x3c, 0x3f, Some(Intermediate), Some(DcsParameter)),
      Transition(0x40, 0x7e, Some(Input), Some(DcsHandler)),
      Transition(0x7f, 0xff, None, None),
      SENTINEL]
    case DcsParameter => [
      Transition(0x00, 0x17, None, None),
      Transition(0x19, 0x19, None, None),
      Transition(0x1c, 0x1f, None, None),
      Transition(0x20, 0x2f, Some(Intermediate), Some(DcsIntermediate)),
      Transition(0x30, 0x39, Some(Parameter), None),
      Transition(0x3a, 0x3a, None, Some(DcsIgnore)),
      Transition(0x3b, 0x3b, Some(Parameter), None),
      Transition(0x3c, 0x3f, None, Some(DcsIgnore)),
      Transition(0x40, 0x7e, Some(Input), Some(DcsHandler)),
      Transition(0x7f, 0xff, None, None),
      SENTINEL]
    case DcsIntermediate => [
      Transition(0x00, 0x17, None, None),
      Transition(0x19, 0x19, None, None),
      Transition(0x1c, 0x1f, None, None),
      Transition(0x20, 0x2f, Some(Intermediate), None),
      Transition(0x30, 0x3f, None, Some(DcsIgnore)),
      Transition(0x40, 0x7e, Some(Input), Some(DcsHandler)),
      Transition(0x7f, 0xff, None, None),
      SENTINEL]
    case DcsHandler => [
      Transition(0x00, 0x1a, Some(Input), None),
      Transition(0x1b, 0x1b, None, Some(DcsEscape)),
      Transition(0x1c, 0xff, Some(Input), None),
      SENTINEL]
    case DcsEscape => [
      Transition(0x00, 0x5b, Some(Input), Some(DcsHandler)),
      Transition(0x5c, 0x5c, Some(DcsDispatch), Some(Ground)),
      Transition(0x5d, 0xff, Some(Input), Some(DcsHandler)),
      SENTINEL]
    case DcsIgnore => [
      Transition(0x00, 0x17, None, None),
      Transition(0x19, 0x19, None, None),
      Transition(0x1c, 0x1f, None, None),
      Transition(0x20, 0xff, None, None),
      SENTINEL]
    case OscString => [
      Transition(0x00, 0x06, None, None),
      Transition(0x07, 0x07, None, Some(Ground)),
      Transition(0x08, 0x17, None, None),
      Transition(0x19, 0x19, None, None),
      Transition(0x1c, 0x1f, None, None),
      Transition(0x20, 0xff, Some(Input), None),
      SENTINEL]
    case ApcString => [
      Transition(0x00, 0x17, None, None),
      Transition(0x19, 0x19, None, None),
      Transition(0x1c, 0x1f, None, None),
      Transition(0x20, 0xff, Some(Input), None),
      SENTINEL]
    case RenameString => [
      Transition(0x00, 0x17, None, None),
      Transition(0x19, 0x19, None, None),
      Transition(0x1c, 0x1f, None, None),
      Transition(0x20, 0xff, Some(Input), None),
      SENTINEL]
    case ConsumeSt => [
      Transition(0x00, 0x17, None, None),
      Transition(0x19, 0x19, None, None),
      Transition(0x1c, 0x1f, None, None),
      Transition(0x20, 0xff, None, None),
      SENTINEL]
    case Utf8Three => [
      Transition(0x00, 0x7f, None, Some(Ground)),
      Transition(0x80, 0xbf, Some(Utf8Add), Some(Utf8Two)),
      Transition(0xc0, 0xff, None, Some(Ground)),
      SENTINEL]
    case Utf8Two => [
      Transition(0x00, 0x7f, None, Some(Ground)),
      Transition(0x80, 0xbf, Some(Utf8Add), Some(Utf8One)),
      Transition(0xc0, 0xff, None, Some(Ground)),
      SENTINEL]
    case Utf8One => [
      Transition(0x00, 0x7f, None, Some(Ground)),
      Transition(0x80, 0xbf, Some(Utf8Close), Some(Ground)),
      Transition(0xc0, 0xff, None, Some(Ground)),
      SENTINEL]
  }

  predicate Matches(t: Transition, ch: Byte) {
    t.first <= ch <= t.last
  }

  predicate IsEnd(t: Transition) {
    t.first == -1 || t.last == -1
  }

  // ----- What the tables mean

  datatype Action = Action(handler: Option<Handler>, state: Option<State>)

  const NOTHING := Action(None, None)

  /** C0 controls are executed inside a sequence, but ignored inside strings
      and device control sequences. */
  function OnControl(s: State): Action {
    if s.Ground? || s.EscEnter? || s.EscIntermediate? || s.CsiEnter? || s.CsiParameter? || s.CsiIntermediate?
       || s.CsiIgnore?
    then Action(Some(C0Dispatch), None)
    else NOTHING
  }

  function OnEscape(ch: Byte): Action
    requires 0x20 <= ch
  {
    if ch <= 0x2f then Action(Some(Intermediate), Some(EscIntermediate))
    else if ch == 0x50 then Action(None, Some(DcsEnter))
    else if ch == 0x58 || ch == 0x5e then Action(None, Some(ConsumeSt))
    else if ch == 0x5b then Action(None, Some(CsiEnter))
    else if ch == 0x5d then Action(None, Some(OscString))
    else if ch == 0x5f then Action(None, Some(ApcString))
    else if ch == 0x6b then Action(None, Some(RenameString))
    else if ch <= 0x7e then Action(Some(EscDispatch), Some(Ground))
    else NOTHING
  }

  /** Control and device control sequences share one grammar: parameters
      0x30-0x3f, then intermediates 0x20-0x2f, then a final byte. `enter` and
      `parameter` say how far the sequence has come. */
  function OnSequence(
    ch: Byte, enter: bool, parameter: bool, params: State, interms: State, ignore: State, final: Action): Action
    requires 0x20 <= ch
  {
    if ch <= 0x2f then Action(Some(Intermediate), if enter || parameter then Some(interms) else None)
    else if ch <= 0x3f then
      if (!enter && !parameter) || ch == 0x3a then Action(None, Some(ignore))
      else if ch <= 0x3b then Action(Some(Parameter), if enter then Some(params) else None)
      else if enter then Action(Some(Intermediate), Some(params))
      else Action(None, Some(ignore))
    else if ch <= 0x7e then final
    else NOTHING
  }

  function OnUtf8(s: State, ch: Byte): Action
    requires s.Utf8Three? || s.Utf8Two? || s.Utf8One?
  {
    if !(0x80 <= ch <= 0xbf) then Action(None, Some(Ground))
    else if s.Utf8Three? then Action(Some(Utf8Add), Some(Utf8Two))
    else if s.Utf8Two? then Action(Some(Utf8Add), Some(Utf8One))
    else Action(Some(Utf8Close), Some(Ground))
  }

  function OnGround(ch: Byte): Action
    requires 0x20 <= ch
  {
    if ch == 0x7f then NOTHING
    else if 0xc2 <= ch <= 0xdf then Action(Some(Utf8Open), Some(Utf8One))
    else if 0xe0 <= ch <= 0xef then Action(Some(Utf8Open), Some(Utf8Two))
    else if 0xf0 <= ch <= 0xf4 then Action(Some(Utf8Open), Some(Utf8Three))
    else Action(Some(Print), None)
  }

  /** What the parser does with a byte in a state, without the tables. */
  function Act(s: State, ch: Byte): Action {
    var csi := Action(Some(CsiDispatch), Some(Ground));
    var dcs := Action(Some(Input), Some(DcsHandler));
    if HasAnywhere(s) && (ch == 0x18 || ch == 0x1a) then Action(Some(C0Dispatch), Some(Ground))
    else if HasAnywhere(s) && ch == 0x1b then Action(None, Some(EscEnter))
    else if s.OscString? && ch == 0x07 then Action(None, Some(Ground))
    else if HasAnywhere(s) && ch < 0x20 then OnControl(s)
    else match s
      case Ground => OnGround(ch)
      case EscEnter => OnEscape(ch)
      case EscIntermediate =>
        if ch <= 0x2f then Action(Some(Intermediate), None)
        else if ch <= 0x7e then Action(Some(EscDispatch), Some(Ground))
        else NOTHING
      case CsiEnter => OnSequence(ch, true, false, CsiParameter, CsiIntermediate, CsiIgnore, csi)
      case CsiParameter => OnSequence(ch, false, true, CsiParameter, CsiIntermediate, CsiIgnore, csi)
      case CsiIntermediate => OnSequence(ch, false, false, CsiParameter, CsiIntermediate, CsiIgnore, csi)
      case CsiIgnore => if 0x40 <= ch <= 0x7e then Action(None, Some(Ground)) else NOTHING
      case DcsEnter => OnSequence(ch, true, false, DcsParameter, DcsIntermediate, DcsIgnore, dcs)
      case DcsParameter => OnSequence(ch, false, true, DcsParameter, DcsIntermediate, DcsIgnore, dcs)
      case DcsIntermediate => OnSequence(ch, false, false, DcsParameter, DcsIntermediate, DcsIgnore, dcs)
      case DcsHandler => if ch == 0x1b then Action(None, Some(DcsEscape)) else Action(Some(Input), None)
      case DcsEscape =>
        if ch == 0x5c then Action(Some(DcsDispatch), Some(Ground)) else Action(Some(Input), Some(DcsHandler))
      case DcsIgnore => NOTHING
      case OscString => Action(Some(Input), None)
      case ApcString => Action(Some(Input), None)
      case RenameString => Action(Some(Input), None)
      case ConsumeSt => NOTHING
      case Utf8Three => OnUtf8(s, ch)
      case Utf8Two => OnUtf8(s, ch)
      case Utf8One => OnUtf8(s, ch)
  }

  predicate Agrees(t: Transition, s: State, ch: Byte) {
    Matches(t, ch) ==> Action(t.handler, t.state) == Act(s, ch)
  }

  /** Only the last entry ends the table. */
  predicate Ended(t: seq<Transition>) {
    t != [] && IsEnd(t[|t| - 1]) && forall i :: 0 <= i < |t| - 1 ==> !IsEnd(t[i])
  }

  predicate InAnywhere(s: State, ch: int) {
    HasAnywhere(s) && (ch == 0x18 || ch == 0x1a || ch == 0x1b)
  }

  /** The ranges of the state's own rows follow each other from 0x00 to 0xff,
      leaving out at most the bytes of ANYWHERE. */
  predicate Covers(rows: seq<Transition>, s: State) {
    && |rows| >= 2 && rows[0].first == 0 && rows[|rows| - 2].last == 0xff
    && forall i :: 0 <= i < |rows| - 2 ==>
         forall ch :: rows[i].last < ch < rows[i + 1].first ==> InAnywhere(s, ch)
  }

  predicate RowsAgree(s: State, ch: Byte) {
    forall i :: 0 <= i < |Rows(s)| ==> Agrees(Rows(s)[i], s, ch)
  }

  /** The rows of a state, one byte at a time. */
  predicate Checked(s: State, ch: Byte) {
    Ended(Rows(s)) && Covers(Rows(s), s) && RowsAgree(s, ch)
  }

  lemma GroundRows(s: State, ch: Byte)
    requires s.Ground?
    ensures Checked(s, ch)
  {}

  lemma EscEnterRows(s: State, ch: Byte)
    requires s.EscEnter?
    ensures Checked(s, ch)
  {}

  lemma EscIntermediateRows(s: State, ch: Byte)
    requires s.EscIntermediate?
    ensures Checked(s, ch)
  {}

  lemma CsiEnterRows(s: State, ch: Byte)
    requires s.CsiEnter?
    ensures Checked(s, ch)
  {}

  lemma CsiParameterRows(s: State, ch: Byte)
    requires s.CsiParameter?
    ensures Checked(s, ch)
  {}

  lemma CsiIntermediateRows(s: State, ch: Byte)
    requires s.CsiIntermediate?
    ensures Checked(s, ch)
  {}

  lemma CsiIgnoreRows(s: State, ch: Byte)
    requires s.CsiIgnore?
    ensures Checked(s, ch)
  {}

  lemma DcsEnterRows(s: State, ch: Byte)
    requires s.DcsEnter?
    ensures Checked(s, ch)
  {}

  lemma DcsParameterRows(s: State, ch: Byte)
    requires s.DcsParameter?
    ensures Checked(s, ch)
  {}

  lemma DcsIntermediateRows(s: State, ch: Byte)
    requires s.DcsIntermediate?
    ensures Checked(s, ch)
  {}

  lemma DcsIgnoreRows(s: State, ch: Byte)
    requires s.DcsIgnore?
    ensures Checked(s, ch)
  {}

  lemma OscStringRows(s: State, ch: Byte)
    requires s.OscString?
    ensures Checked(s, ch)
  {}

  lemma ApcStringRows(s: State, ch: Byte)
    requires s.ApcString?
    ensures Checked(s, ch)
  {}

  lemma RenameStringRows(s: State, ch: Byte)
    requires s.RenameString?
    ensures Checked(s, ch)
  {}

  lemma ConsumeStRows(s: State, ch: Byte)
    requires s.ConsumeSt?
    ensures Checked(s, ch)
  {}

  lemma DataRows(s: State, ch: Byte)
    requires s.DcsHandler? || s.DcsEscape?
    ensures Checked(s, ch)
  {
    match s
    case DcsHandler =>
    case _ =>
  }

  lemma Utf8Rows(s: State, ch: Byte)
    requires s.Utf8Three? || s.Utf8Two? || s.Utf8One?
    ensures Checked(s, ch)
  {
    match s
    case Utf8Three =>
    case Utf8Two =>
    case _ =>
  }

  lemma AllRows(s: State, ch: Byte)
    ensures Checked(s, ch)
  {
    hide Checked;
    match s
    case Ground => GroundRows(s, ch);
    case EscEnter => EscEnterRows(s, ch);
    case EscIntermediate => EscIntermediateRows(s, ch);
    case CsiEnter => CsiEnterRows(s, ch);
    case CsiParameter => CsiParameterRows(s, ch);
    case CsiIntermediate => CsiIntermediateRows(s, ch);
    case CsiIgnore => CsiIgnoreRows(s, ch);
    case DcsEnter => DcsEnterRows(s, ch);
    case DcsParameter => DcsParameterRows(s, ch);
    case DcsIntermediate => DcsIntermediateRows(s, ch);
    case DcsIgnore => DcsIgnoreRows(s, ch);
    case OscString => OscStringRows(s, ch);
    case ApcString => ApcStringRows(s, ch);
    case RenameString => RenameStringRows(s, ch);
    case ConsumeSt => ConsumeStRows(s, ch);
    case DcsHandler => DataRows(s, ch);
    case DcsEscape => DataRows(s, ch);
    case _ => Utf8Rows(s, ch);
  }

  lemma TableEnded(s: State)
    ensures Ended(Table(s)) && |Table(s)| == |Rows(s)| + if HasAnywhere(s) then 3 else 0
  {
    hide Rows, Act;
    AllRows(s, 0);
  }

  /** An entry with the byte agrees with the description. */
  lemma TableAgrees(s: State, ch: Byte, i: nat)
    requires i < |Table(s)|
    ensures Agrees(Table(s)[i], s, ch)
  {
    hide Rows;
    AllRows(s, ch);
  }

  /** Ranges that follow each other hold every byte. */
  lemma {:induction false} CoversAll(rows: seq<Transition>, s: State, ch: Byte, i: nat) returns (k: nat)
    requires Covers(rows, s) && i < |rows| - 1 && rows[i].first <= ch && !InAnywhere(s, ch)
    ensures k < |rows| - 1 && Matches(rows[k], ch)
    decreases |rows| - i
  {
    k := i;
    if ch > rows[i].last {
      k := CoversAll(rows, s, ch, i + 1);
    }
  }

  lemma TableCovers(s: State, ch: Byte) returns (k: nat)
    ensures k < |Table(s)| - 1 && Matches(Table(s)[k], ch)
  {
    hide Rows, Act;
    AllRows(s, ch);
    if InAnywhere(s, ch) {
      k := if ch == 0x18 then 0 else if ch == 0x1a then 1 else 2;
    } else {
      var j := CoversAll(Rows(s), s, ch, 0);
      k := if HasAnywhere(s) then j + 3 else j;
    }
  }

  // ----- The search in input_parse

  /** The first entry with the byte, or None if the table ends before one. */
  function Find(t: seq<Transition>, ch: Byte): Option<Transition> {
    if t == [] || IsEnd(t[0]) then None
    else if Matches(t[0], ch) then Some(t[0])
    else Find(t[1..], ch)
  }

  lemma {:induction false} FindMatches(t: seq<Transition>, ch: Byte, k: nat) returns (i: nat)
    requires Ended(t) && k < |t| - 1 && Matches(t[k], ch)
    ensures i <= k && Find(t, ch) == Some(t[i]) && Matches(t[i], ch)
  {
    if Matches(t[0], ch) {
      i := 0;
    } else {
      var j := FindMatches(t[1..], ch, k - 1);
      i := j + 1;
    }
  }

  /** Every state has a transition for every byte, so the fatal error after the
      search is never reached, and it is the one the description above gives. */
  lemma EveryByte(s: State, ch: Byte)
    ensures Find(Table(s), ch).Some?
    ensures var t := Find(Table(s), ch).value;
            Matches(t, ch) && Action(t.handler, t.state) == Act(s, ch)
  {
    hide Table, Act;
    TableEnded(s);
    var k := TableCovers(s, ch);
    var i := FindMatches(Table(s), ch, k);
    TableAgrees(s, ch, i);
  }

  // The loop over a table's entries.
  method FindTransition(s: State, ch: Byte) returns (itr: Transition)
    ensures Find(Table(s), ch) == Some(itr) && Action(itr.handler, itr.state) == Act(s, ch)
  {
    hide Table, Act;
    EveryByte(s, ch);
    TableEnded(s);
    var table := Table(s);
    var i := 0;
    assert table[0..] == table;
    while table[i].first != -1 && table[i].last != -1
      invariant i < |table| && Find(table[i..], ch) == Find(table, ch)
      decreases |table| - i
    {
      if table[i].first <= ch <= table[i].last {
        break;
      }
      assert table[i..][1..] == table[i + 1..];
      i := i + 1;
    }
    itr := table[i];
  }
}
