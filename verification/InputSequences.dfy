// Whole sequences: what the parser makes of a control sequence, a string or a
// UTF-8 character, from any state in which ESC starts a new one.
module InputSequences {
  import opened Common
  import opened InputTables
  import opened Decimals
  import opened InputSplit
  import opened InputParser

  const ESC: Byte := 0x1b
  const BEL: Byte := 0x07
  const BACKSLASH: Byte := 0x5c

  // ----- Stretches of bytes that are only collected

  predicate Collector(h: Handler) {
    h.Intermediate? || h.Parameter? || h.Input?
  }

  /** Parsing the bytes calls no handler that does anything outside, ends in
      state s, and has collected h where there was g. */
  predicate Quiet(c: Ctx, g: Collected, bytes: seq<Byte>, utf8On: bool, s: State, h: Collected) {
    && Valid(c) && Holds(c, g)
    && Run(c, bytes, utf8On).state == s && Holds(Run(c, bytes, utf8On), h)
    && Trace(c, bytes, utf8On) == []
  }

  lemma QuietThen(c: Ctx, g: Collected, a: seq<Byte>, b: seq<Byte>, utf8On: bool,
                  s: State, h: Collected, s': State, h': Collected)
    requires Quiet(c, g, a, utf8On, s, h) && Quiet(Run(c, a, utf8On), h, b, utf8On, s', h')
    ensures Quiet(c, g, a + b, utf8On, s', h')
  {
    Chunks(c, a, b, utf8On);
  }

  predicate InText(s: State) {
    s.OscString? || s.ApcString? || s.RenameString?
  }

  lemma QuietByte(c: Ctx, g: Collected, ch: Byte, h: Handler, utf8On: bool)
    requires Valid(c) && Holds(c, g) && Collector(h) && Act(c.state, ch).handler == Some(h)
    requires Act(c.state, ch).state.Some? ==> !InText(c.state) && !ClearsOnEntry(Act(c.state, ch).state.value)
    ensures Quiet(c, g, [ch], utf8On,
                  if Act(c.state, ch).state.Some? then Act(c.state, ch).state.value else c.state, Add(g, h, [ch]))
  {
    hide Act;
    RunOne(c, ch, utf8On);
    GatherHolds(c, g, ch, utf8On);
  }

  /** A byte that only moves to another state. */
  lemma QuietMove(c: Ctx, g: Collected, ch: Byte, s: State, utf8On: bool)
    requires Valid(c) && Holds(c, g) && Act(c.state, ch) == Action(None, Some(s))
    requires !InText(c.state)
    ensures Quiet(c, g, [ch], utf8On, s, if ClearsOnEntry(s) then NO_BYTES else g)
  {
    hide Act;
    RunOne(c, ch, utf8On);
    GatherHolds(c, g, ch, utf8On);
  }

  predicate Stays(s: State, bytes: seq<Byte>, h: Handler) {
    forall i :: 0 <= i < |bytes| ==> Act(s, bytes[i]) == Action(Some(h), None)
  }

  lemma {:induction false} QuietBytes(c: Ctx, g: Collected, bytes: seq<Byte>, h: Handler, utf8On: bool)
    requires Valid(c) && Holds(c, g) && Collector(h) && Stays(c.state, bytes, h)
    ensures Quiet(c, g, bytes, utf8On, c.state, Add(g, h, bytes))
    decreases |bytes|
  {
    hide Act, Holds, Valid, Run, Trace;
    if bytes == [] {
      RunNothing(c, utf8On);
      assert Add(g, h, bytes) == g;
    } else {
      QuietByte(c, g, bytes[0], h, utf8On);
      RunOne(c, bytes[0], utf8On);
      var d := Run(c, [bytes[0]], utf8On);
      assert Stays(d.state, bytes[1..], h);
      QuietBytes(d, Add(g, h, [bytes[0]]), bytes[1..], h, utf8On);
      assert [bytes[0]] + bytes[1..] == bytes;
      AddMore(g, h, [bytes[0]], bytes[1..]);
      QuietThen(c, g, [bytes[0]], bytes[1..], utf8On, c.state, Add(g, h, [bytes[0]]), c.state, Add(g, h, bytes));
    }
  }

  lemma AddMore(g: Collected, h: Handler, a: seq<Byte>, b: seq<Byte>)
    ensures Add(Add(g, h, a), h, b) == Add(g, h, a + b)
  {
    assert forall s: seq<Byte> :: s + a + b == s + (a + b);
  }

  // ----- Control sequences

  predicate Between(t: seq<Byte>, lo: int, hi: int) {
    forall i :: 0 <= i < |t| ==> lo <= t[i] <= hi
  }

  /** ESC ends whatever was going on and starts afresh. */
  lemma Escape(c: Ctx, utf8On: bool)
    requires Valid(c) && HasAnywhere(c.state)
    ensures var d := Run(c, [ESC], utf8On);
            d.state == EscEnter && Holds(d, NO_BYTES) && Trace(c, [ESC], utf8On) == ExitEvents(c)
  {
    RunOne(c, ESC, utf8On);
  }

  /** ESC and one byte that opens a kind of sequence. */
  lemma Introduce(c: Ctx, ch: Byte, s: State, utf8On: bool)
    requires Valid(c) && HasAnywhere(c.state) && Act(EscEnter, ch) == Action(None, Some(s)) && ClearsOnEntry(s)
    ensures var d := Run(c, [ESC, ch], utf8On);
            d.state == s && Holds(d, NO_BYTES) && Trace(c, [ESC, ch], utf8On) == ExitEvents(c)
  {
    hide Act;
    Escape(c, utf8On);
    var d := Run(c, [ESC], utf8On);
    QuietMove(d, NO_BYTES, ch, s, utf8On);
    Chunks(c, [ESC], [ch], utf8On);
    assert [ESC] + [ch] == [ESC, ch];
  }

  predicate CsiOpen(s: State) {
    s.CsiEnter? || s.CsiParameter?
  }

  // Control and device control sequences collect in the same way.
  function Opener(dcs: bool): Byte {
    if dcs then 0x50 else 0x5b
  }

  function EnterState(dcs: bool): State {
    if dcs then DcsEnter else CsiEnter
  }

  function ParameterState(dcs: bool): State {
    if dcs then DcsParameter else CsiParameter
  }

  function IntermediateState(dcs: bool): State {
    if dcs then DcsIntermediate else CsiIntermediate
  }

  /** At most one private marker right after the introducer. */
  lemma CollectPrivate(c: Ctx, dcs: bool, priv: seq<Byte>, utf8On: bool) returns (s: State)
    requires Valid(c) && c.state == EnterState(dcs) && Holds(c, NO_BYTES) && |priv| <= 1 && Between(priv, 0x3c, 0x3f)
    ensures s == if priv == [] then EnterState(dcs) else ParameterState(dcs)
    ensures Quiet(c, NO_BYTES, priv, utf8On, s, Collected(priv, [], []))
  {
    hide Holds;
    if priv == [] {
      s := c.state;
    } else {
      QuietByte(c, NO_BYTES, priv[0], Intermediate, utf8On);
      assert priv == [priv[0]] && [] + priv == priv;
      s := ParameterState(dcs);
    }
  }

  lemma CollectParams(c: Ctx, dcs: bool, g: Collected, ps: seq<Byte>, utf8On: bool) returns (s: State)
    requires Valid(c) && (c.state == EnterState(dcs) || c.state == ParameterState(dcs)) && Holds(c, g) && ParamText(ps)
    ensures s == if ps == [] then c.state else ParameterState(dcs)
    ensures Quiet(c, g, ps, utf8On, s, Add(g, Parameter, ps))
  {
    hide Holds, Run, Trace;
    if ps == [] {
      QuietBytes(c, g, [], Parameter, utf8On);
      s := c.state;
    } else {
      QuietByte(c, g, ps[0], Parameter, utf8On);
      s := ParameterState(dcs);
      var d := Run(c, [ps[0]], utf8On);
      QuietBytes(d, Add(g, Parameter, [ps[0]]), ps[1..], Parameter, utf8On);
      assert [ps[0]] + ps[1..] == ps;
      AddMore(g, Parameter, [ps[0]], ps[1..]);
      QuietThen(c, g, [ps[0]], ps[1..], utf8On, s, Add(g, Parameter, [ps[0]]), s, Add(g, Parameter, ps));
    }
  }

  lemma CollectIntermediates(c: Ctx, dcs: bool, g: Collected, im: seq<Byte>, utf8On: bool) returns (s: State)
    requires Valid(c) && (c.state == EnterState(dcs) || c.state == ParameterState(dcs)) && Holds(c, g)
    requires Between(im, 0x20, 0x2f)
    ensures s == if im == [] then c.state else IntermediateState(dcs)
    ensures Quiet(c, g, im, utf8On, s, Add(g, Intermediate, im))
  {
    hide Holds, Run, Trace;
    if im == [] {
      QuietBytes(c, g, [], Intermediate, utf8On);
      s := c.state;
    } else {
      QuietByte(c, g, im[0], Intermediate, utf8On);
      s := IntermediateState(dcs);
      var d := Run(c, [im[0]], utf8On);
      QuietBytes(d, Add(g, Intermediate, [im[0]]), im[1..], Intermediate, utf8On);
      assert [im[0]] + im[1..] == im;
      AddMore(g, Intermediate, [im[0]], im[1..]);
      QuietThen(c, g, [im[0]], im[1..], utf8On, s, Add(g, Intermediate, [im[0]]), s, Add(g, Intermediate, im));
    }
  }

  /** What comes before the final byte of a control or device control sequence
      is collected and calls no handler. */
  lemma HeaderCollected(c: Ctx, dcs: bool, priv: seq<Byte>, ps: seq<Byte>, im: seq<Byte>, utf8On: bool) returns (s: State)
    requires Valid(c) && HasAnywhere(c.state) && |priv| <= 1 && Between(priv, 0x3c, 0x3f)
    requires ParamText(ps) && Between(im, 0x20, 0x2f)
    ensures s == if im != [] then IntermediateState(dcs) else if priv + ps == [] then EnterState(dcs) else ParameterState(dcs)
    ensures var text := [ESC, Opener(dcs)] + (priv + ps + im);
            var d := Run(c, text, utf8On);
            d.state == s && Holds(d, Collected(priv + im, ps, [])) && Trace(c, text, utf8On) == ExitEvents(c)
  {
    hide Run, Trace, Holds, ParamText, Between, ExitEvents;
    var start := [ESC, Opener(dcs)];
    assert Act(EscEnter, Opener(dcs)) == Action(None, Some(EnterState(dcs)));
    Introduce(c, Opener(dcs), EnterState(dcs), utf8On);
    var c0 := Run(c, start, utf8On);
    var s1 := CollectPrivate(c0, dcs, priv, utf8On);
    var g1 := Collected(priv, [], []);
    var s2 := CollectParams(Run(c0, priv, utf8On), dcs, g1, ps, utf8On);
    var g2 := Collected(priv, ps, []);
    assert Add(g1, Parameter, ps) == g2;
    QuietThen(c0, NO_BYTES, priv, ps, utf8On, s1, g1, s2, g2);
    Chunks(c0, priv, ps, utf8On);
    var c2 := Run(c0, priv + ps, utf8On);
    s := CollectIntermediates(c2, dcs, g2, im, utf8On);
    QuietThen(c0, NO_BYTES, priv + ps, im, utf8On, s2, g2, s, Collected(priv + im, ps, []));
    Chunks(c, start, priv + ps + im, utf8On);
  }

  /** What a control sequence comes to: one dispatch, or nothing if it is too
      long or its parameters cannot be split. */
  function CsiEvents(interm: seq<Byte>, ps: seq<Byte>, final: Byte): seq<Event>
    requires ParamText(ps)
  {
    if |interm| >= INTERM_SIZE || |ps| >= PARAM_SIZE then []
    else match SplitParams(ps)
      case None => []
      case Some(ns) => [RunCsi(final, interm, ns)]
  }

  lemma CsiFinal(c: Ctx, interm: seq<Byte>, ps: seq<Byte>, final: Byte, utf8On: bool)
    requires Valid(c) && (CsiOpen(c.state) || c.state.CsiIntermediate?) && ParamText(ps)
    requires Holds(c, Collected(interm, ps, [])) && 0x40 <= final <= 0x7e
    ensures Run(c, [final], utf8On).state.Ground? && Trace(c, [final], utf8On) == CsiEvents(interm, ps, final)
  {
    hide SplitParams, ParamText, Act, SplitLeft;
    FinalByte(c.state, final);
    RunOne(c, final, utf8On);
    assert !c.discard ==> c.interm == interm && c.param == ps;
  }

  lemma FinalByte(s: State, final: Byte)
    requires (CsiOpen(s) || s.CsiIntermediate?) && 0x40 <= final <= 0x7e
    ensures Act(s, final) == Action(Some(CsiDispatch), Some(Ground))
  {}

  /** A control sequence as section 5.4 of ECMA-48 lays it out: CSI, a private
      marker if any, parameters, intermediates and a final byte. From any state
      but inside device control data and inside a UTF-8 character, where
      EscapeSwallowed says what becomes of it, it is dispatched once,
      with exactly its parameters and with marker and intermediates in order,
      and the parser is back in the ground state. */
  lemma ControlSequence(c: Ctx, priv: seq<Byte>, ps: seq<Byte>, im: seq<Byte>, final: Byte, utf8On: bool)
    requires Valid(c) && HasAnywhere(c.state) && |priv| <= 1 && Between(priv, 0x3c, 0x3f)
    requires ParamText(ps) && Between(im, 0x20, 0x2f) && 0x40 <= final <= 0x7e
    ensures var text := [ESC, 0x5b] + (priv + ps + im) + [final];
            && Run(c, text, utf8On).state.Ground?
            && Trace(c, text, utf8On) == ExitEvents(c) + CsiEvents(priv + im, ps, final)
  {
    hide Run, Trace, Holds, ParamText, Between, CsiEvents, ExitEvents;
    var s := HeaderCollected(c, false, priv, ps, im, utf8On);
    var start := [ESC, 0x5b] + (priv + ps + im);
    CsiFinal(Run(c, start, utf8On), priv + im, ps, final, utf8On);
    Chunks(c, start, [final], utf8On);
  }

  /** Written with its limits: up to 3 marker and intermediate bytes, up to 63
      bytes of parameters, up to 23 of them, none over 2147483647. */
  lemma ControlSequenceLimits(interm: seq<Byte>, ps: seq<Byte>, final: Byte)
    requires ParamText(ps)
    ensures ps == [] && |interm| <= 3 ==> CsiEvents(interm, ps, final) == [RunCsi(final, interm, [])]
    ensures ps != [] ==>
              var fs := Fields(ps);
              && (forall j :: 0 <= j < |fs| ==> AllDigits(fs[j]))
              && (CsiEvents(interm, ps, final) != [] <==>
                    |interm| <= 3 && |ps| <= 63 && |fs| <= 23
                    && forall j :: 0 <= j < |fs| ==> fs[j] == [] || Value(fs[j]) <= 0x7FFF_FFFF)
    ensures |interm| > 3 || |ps| > 63 ==> CsiEvents(interm, ps, final) == []
  {
    hide Fields;
    FieldsAreFields(ps);
    NumbersAll(Fields(ps));
  }

  lemma {:induction false} NumbersAll(fs: seq<seq<Byte>>)
    requires forall j :: 0 <= j < |fs| ==> AllDigits(fs[j])
    ensures Numbers(fs).Some? <==> forall j :: 0 <= j < |fs| ==> Number(fs[j]).Some?
  {
    hide AllDigits, Number;
    if fs != [] { NumbersAll(fs[1..]); }
  }

  /** A byte out of place makes the rest of a control sequence ignored: a colon,
      a second marker or one after parameters, a parameter after an
      intermediate. */
  lemma ControlSequenceIgnored(c: Ctx, priv: seq<Byte>, ps: seq<Byte>, im: seq<Byte>, bad: Byte,
                               rest: seq<Byte>, final: Byte, utf8On: bool)
    requires Valid(c) && HasAnywhere(c.state) && |priv| <= 1 && Between(priv, 0x3c, 0x3f)
    requires ParamText(ps) && Between(im, 0x20, 0x2f) && Between(rest, 0x20, 0x3f) && 0x40 <= final <= 0x7e
    requires bad == 0x3a || (im != [] && 0x30 <= bad <= 0x3f) || (priv + ps != [] && 0x3c <= bad <= 0x3f)
    ensures var text := [ESC, 0x5b] + (priv + ps + im) + [bad] + rest + [final];
            Run(c, text, utf8On).state.Ground? && Trace(c, text, utf8On) == ExitEvents(c)
  {
    hide Run, Trace, Holds, ParamText, Between, ExitEvents;
    var s := HeaderCollected(c, false, priv, ps, im, utf8On);
    var start := [ESC, 0x5b] + (priv + ps + im);
    var d := Run(c, start, utf8On);
    BadByte(s, bad);
    QuietMove(d, Collected(priv + im, ps, []), bad, CsiIgnore, utf8On);
    var e := Run(d, [bad], utf8On);
    IgnoredBytes(e, rest, utf8On);
    IgnoredFinal(Run(e, rest, utf8On), final, utf8On);
    Chunks(c, start, [bad], utf8On);
    Chunks(c, start + [bad], rest, utf8On);
    Chunks(c, start + [bad] + rest, [final], utf8On);
  }

  lemma BadByte(s: State, bad: Byte)
    requires CsiOpen(s) || s.CsiIntermediate?
    requires bad == 0x3a || (s.CsiIntermediate? && 0x30 <= bad <= 0x3f) || (s.CsiParameter? && 0x3c <= bad <= 0x3f)
    ensures Act(s, bad) == Action(None, Some(CsiIgnore))
  {}

  lemma {:induction false} IgnoredBytes(c: Ctx, rest: seq<Byte>, utf8On: bool)
    requires Valid(c) && c.state.CsiIgnore? && Between(rest, 0x20, 0x3f)
    ensures Run(c, rest, utf8On).state.CsiIgnore? && Trace(c, rest, utf8On) == []
    decreases |rest|
  {
    hide Run, Trace;
    if rest == [] {
      RunNothing(c, utf8On);
    } else {
      RunOne(c, rest[0], utf8On);
      IgnoredBytes(Run(c, [rest[0]], utf8On), rest[1..], utf8On);
      Chunks(c, [rest[0]], rest[1..], utf8On);
      assert [rest[0]] + rest[1..] == rest;
    }
  }

  lemma IgnoredFinal(c: Ctx, final: Byte, utf8On: bool)
    requires Valid(c) && c.state.CsiIgnore? && 0x40 <= final <= 0x7e
    ensures Run(c, [final], utf8On).state.Ground? && Trace(c, [final], utf8On) == []
  {
    RunOne(c, final, utf8On);
  }

  /** Any list of numbers a program sends as decimal parameters arrives as
      that list. */
  lemma ParametersArrive(c: Ctx, ns: seq<int>, final: Byte, utf8On: bool)
    requires Valid(c) && HasAnywhere(c.state) && 0x40 <= final <= 0x7e
    requires ns != [-1] && forall i :: 0 <= i < |ns| ==> -1 <= ns[i] <= INT_MAX
    requires |ns| < PARAM_LIST_SIZE && |ParamsText(ns)| < PARAM_SIZE
    ensures Trace(c, [ESC, 0x5b] + ParamsText(ns) + [final], utf8On) == ExitEvents(c) + [RunCsi(final, [], ns)]
  {
    hide Trace, Run, ParamsText;
    SplitBack(ns);
    ControlSequence(c, [], ParamsText(ns), [], final, utf8On);
    assert [] + ParamsText(ns) + [] == ParamsText(ns);
  }

  // ----- Strings

  function Introducer(s: State): Byte
    requires InText(s)
  {
    match s
    case OscString => 0x5d
    case ApcString => 0x5f
    case _ => 0x6b
  }

  function TextEvents(s: State, text: seq<Byte>): seq<Event>
    requires InText(s)
  {
    if |text| > 255 then []
    else match s
      case OscString => [RunOsc(text)]
      case ApcString => [RunApc(text)]
      case _ => [RunRename(text)]
  }

  lemma OpenText(c: Ctx, s: State, text: seq<Byte>, utf8On: bool)
    requires Valid(c) && HasAnywhere(c.state) && InText(s) && Between(text, 0x20, 0xff)
    ensures var d := Run(c, [ESC, Introducer(s)] + text, utf8On);
            && d.state == s && Holds(d, Collected([], [], text)) && ExitEvents(d) == TextEvents(s, text)
            && Trace(c, [ESC, Introducer(s)] + text, utf8On) == ExitEvents(c)
  {
    hide Run, Trace, Holds, Act, ExitEvents, TextEvents, Introducer, Between;
    var start := [ESC, Introducer(s)];
    TextStays(s, text);
    Introduce(c, Introducer(s), s, utf8On);
    var d := Run(c, start, utf8On);
    QuietBytes(d, NO_BYTES, text, Input, utf8On);
    assert [] + text == text;
    Chunks(c, start, text, utf8On);
    HeldText(Run(c, start + text, utf8On), text);
  }

  lemma HeldText(c: Ctx, text: seq<Byte>)
    requires InText(c.state) && Holds(c, Collected([], [], text))
    ensures ExitEvents(c) == TextEvents(c.state, text)
  {
    assert !c.discard ==> text[..|text|] == text;
  }

  lemma TextStays(s: State, text: seq<Byte>)
    requires InText(s) && Between(text, 0x20, 0xff)
    ensures Stays(s, text, Input)
    ensures Act(EscEnter, Introducer(s)) == Action(None, Some(s))
  {}

  /** An OSC, APC or rename string ended by ST: the text is handed over once and
      whole, unless it does not fit; the ST that follows is an escape sequence
      of its own. */
  lemma StringSequence(c: Ctx, s: State, text: seq<Byte>, utf8On: bool)
    requires Valid(c) && HasAnywhere(c.state) && InText(s) && Between(text, 0x20, 0xff)
    ensures var whole := [ESC, Introducer(s)] + text + [ESC, BACKSLASH];
            && Run(c, whole, utf8On).state.Ground?
            && Trace(c, whole, utf8On) == ExitEvents(c) + TextEvents(s, text) + [RunEsc(BACKSLASH, [])]
  {
    hide Run, Trace, Holds, ExitEvents, TextEvents;
    OpenText(c, s, text, utf8On);
    var d := Run(c, [ESC, Introducer(s)] + text, utf8On);
    Escape(d, utf8On);
    EscapeFinal(Run(d, [ESC], utf8On), [], BACKSLASH, utf8On);
    Chunks(d, [ESC], [BACKSLASH], utf8On);
    Chunks(c, [ESC, Introducer(s)] + text, [ESC, BACKSLASH], utf8On);
    assert [ESC] + [BACKSLASH] == [ESC, BACKSLASH];
  }

  /** Only an OSC string may also be ended by BEL. */
  lemma OscBell(c: Ctx, text: seq<Byte>, utf8On: bool)
    requires Valid(c) && HasAnywhere(c.state) && Between(text, 0x20, 0xff)
    ensures var whole := [ESC, 0x5d] + text + [BEL];
            && Run(c, whole, utf8On).state.Ground?
            && Trace(c, whole, utf8On) == ExitEvents(c) + TextEvents(OscString, text)
  {
    hide TextEvents, Holds, Run, Trace, ExitEvents, Between;
    OpenText(c, OscString, text, utf8On);
    BellEnds(Run(c, [ESC, 0x5d] + text, utf8On), utf8On);
    Chunks(c, [ESC, 0x5d] + text, [BEL], utf8On);
  }

  lemma BellEnds(c: Ctx, utf8On: bool)
    requires Valid(c) && c.state.OscString?
    ensures Run(c, [BEL], utf8On).state.Ground? && Trace(c, [BEL], utf8On) == ExitEvents(c)
  {
    hide ExitEvents, Run, Trace;
    RunOne(c, BEL, utf8On);
  }

  // ----- Control characters

  const CAN: Byte := 0x18
  const SUB: Byte := 0x1a

  /** C0 controls but for CAN, SUB and ESC. */
  predicate IsControl(ch: Byte) {
    ch < 0x20 && ch != CAN && ch != SUB && ch != ESC
  }

  /** The context without the log. */
  function Unlogged(c: Ctx): Ctx {
    c.(sinceGround := [])
  }

  /** Inside escape and control sequences, as in the ground state, a control is
      executed at once; inside strings it is dropped, but for the BEL that ends
      an OSC string. Neither has any other effect. */
  lemma ControlByte(c: Ctx, ch: Byte, utf8On: bool)
    requires Valid(c) && HasAnywhere(c.state) && IsControl(ch) && !(c.state.OscString? && ch == BEL)
    ensures Unlogged(Run(c, [ch], utf8On)) == Unlogged(c)
    ensures c.state in [Ground, EscEnter, EscIntermediate, CsiEnter, CsiParameter, CsiIntermediate, CsiIgnore] ==>
              Trace(c, [ch], utf8On) == [RunC0(ch)]
    ensures c.state in [DcsEnter, DcsParameter, DcsIntermediate, DcsIgnore, OscString, ApcString, RenameString, ConsumeSt] ==>
              Trace(c, [ch], utf8On) == []
  {
    RunOne(c, ch, utf8On);
  }

  /** CAN and SUB are executed and end whatever was going on; a string they end
      is handed over as if by its terminator. */
  lemma CancelByte(c: Ctx, ch: Byte, utf8On: bool)
    requires Valid(c) && HasAnywhere(c.state) && (ch == CAN || ch == SUB)
    ensures Run(c, [ch], utf8On).state.Ground?
    ensures !InText(c.state) ==> Trace(c, [ch], utf8On) == [RunC0(ch)]
    ensures InText(c.state) ==>
              forall text :: Holds(c, Collected([], [], text)) ==> Trace(c, [ch], utf8On) == [RunC0(ch)] + TextEvents(c.state, text)
  {
    hide Holds, TextEvents;
    CancelStep(c, ch, utf8On);
    if InText(c.state) {
      forall text | Holds(c, Collected([], [], text)) ensures ExitEvents(c) == TextEvents(c.state, text) { HeldText(c, text); }
    }
  }

  lemma CancelStep(c: Ctx, ch: Byte, utf8On: bool)
    requires Valid(c) && HasAnywhere(c.state) && (ch == CAN || ch == SUB)
    ensures Run(c, [ch], utf8On).state.Ground?
    ensures Trace(c, [ch], utf8On) == [RunC0(ch)] + ExitEvents(c)
    ensures !InText(c.state) ==> ExitEvents(c) == []
  {
    RunOne(c, ch, utf8On);
  }

  /** What each byte does in the ground state: controls are executed, DEL is
      dropped, and everything else is printed, but for the first byte of a UTF-8
      character with the option on. */
  lemma GroundByte(c: Ctx, ch: Byte, utf8On: bool)
    requires Valid(c) && c.state.Ground? && ch != ESC
    ensures ch < 0x20 ==> Run(c, [ch], utf8On).state.Ground? && Trace(c, [ch], utf8On) == [RunC0(ch)]
    ensures 0x20 <= ch < 0x7f ==> Run(c, [ch], utf8On) == c && Trace(c, [ch], utf8On) == [PrintByte(ch)]
    ensures ch == 0x7f ==> Run(c, [ch], utf8On) == c && Trace(c, [ch], utf8On) == []
    ensures ch >= 0x80 && (!utf8On || ch < 0xc2 || ch > 0xf4) ==>
              Run(c, [ch], utf8On) == c && Trace(c, [ch], utf8On) == [PrintByte(ch)]
    ensures utf8On && 0xc2 <= ch <= 0xf4 ==> InUtf8(Run(c, [ch], utf8On).state) && Trace(c, [ch], utf8On) == []
  {
    RunOne(c, ch, utf8On);
  }

  // ----- Controls inside a control sequence

  function Stripped(t: seq<Byte>): seq<Byte> {
    if t == [] then []
    else (if IsControl(t[0]) then [] else [t[0]]) + Stripped(t[1..])
  }

  function Controls(t: seq<Byte>): seq<Event> {
    if t == [] then []
    else (if IsControl(t[0]) then [RunC0(t[0])] else []) + Controls(t[1..])
  }

  predicate InCsi(s: State) {
    s.CsiEnter? || s.CsiParameter? || s.CsiIntermediate? || s.CsiIgnore?
  }

  lemma HandledUnlogged(a: Ctx, log: seq<Byte>, h: Handler, ch: Byte)
    requires h.CsiDispatch? ==> ParamText(a.param)
    ensures Handled(a.(sinceGround := log), h, ch) == Handled(a, h, ch).(sinceGround := log)
    ensures HandlerEvents(a.(sinceGround := log), h, ch) == HandlerEvents(a, h, ch)
  {
    hide SplitParams, SplitLeft, ParamText;
  }

  lemma SetUnlogged(a: Ctx, log: seq<Byte>, s: State)
    ensures Unlogged(SetState(a.(sinceGround := log), s)) == Unlogged(SetState(a, s))
    ensures ExitEvents(a.(sinceGround := log)) == ExitEvents(a)
  {}

  /** Contexts that differ in their logs only do the same. */
  lemma UnloggedNext(a: Ctx, b: Ctx, ch: Byte, utf8On: bool)
    requires Valid(a) && Valid(b) && Unlogged(a) == Unlogged(b)
    ensures Unlogged(Run(a, [ch], utf8On)) == Unlogged(Run(b, [ch], utf8On))
    ensures Trace(a, [ch], utf8On) == Trace(b, [ch], utf8On)
  {
    hide Act, ParamText, Run, Trace, Handled, HandlerEvents, SetState, ExitEvents;
    RunOne(a, ch, utf8On);
    RunOne(b, ch, utf8On);
    DispatchStates(a.state, ch);
    var log := b.sinceGround;
    assert b == a.(sinceGround := log);
    var act := Act(a.state, ch);
    if act.handler.Some? { HandledUnlogged(a, log, act.handler.value, ch); }
    if act.state.Some? { SetUnlogged(AfterHandler(a, ch), log, act.state.value); }
  }

  lemma CsiByte(c: Ctx, ch: Byte, utf8On: bool)
    requires Valid(c) && InCsi(c.state) && 0x20 <= ch <= 0x3f
    ensures InCsi(Run(c, [ch], utf8On).state) && Trace(c, [ch], utf8On) == []
  {
    hide Act, Run, Trace;
    CsiAct(c.state, ch);
    RunOne(c, ch, utf8On);
  }

  lemma CsiAct(s: State, ch: Byte)
    requires InCsi(s) && 0x20 <= ch <= 0x3f
    ensures var a := Act(s, ch);
            && (a.handler.Some? ==> a.handler.value.Intermediate? || a.handler.value.Parameter?)
            && (a.state.Some? ==> InCsi(a.state.value) && !a.state.value.CsiEnter?)
  {}

  /** One context reads the bytes, the other reads them without the controls. */
  lemma {:induction false} CsiBody(c: Ctx, d: Ctx, body: seq<Byte>, utf8On: bool)
    requires Valid(c) && Valid(d) && Unlogged(c) == Unlogged(d) && InCsi(c.state)
    requires forall i :: 0 <= i < |body| ==> IsControl(body[i]) || 0x20 <= body[i] <= 0x3f
    ensures Unlogged(Run(c, body, utf8On)) == Unlogged(Run(d, Stripped(body), utf8On))
    ensures Trace(c, body, utf8On) == Controls(body) && Trace(d, Stripped(body), utf8On) == []
    decreases |body|
  {
    hide Run, Trace;
    if body == [] {
      RunNothing(c, utf8On);
      RunNothing(d, utf8On);
    } else {
      var ch, rest := body[0], body[1..];
      assert [ch] + rest == body;
      Chunks(c, [ch], rest, utf8On);
      if IsControl(ch) {
        ControlByte(c, ch, utf8On);
        assert Stripped(body) == Stripped(rest);
        CsiBody(Run(c, [ch], utf8On), d, rest, utf8On);
      } else {
        UnloggedNext(c, d, ch, utf8On);
        CsiByte(c, ch, utf8On);
        CsiBody(Run(c, [ch], utf8On), Run(d, [ch], utf8On), rest, utf8On);
        Chunks(d, [ch], Stripped(rest), utf8On);
      }
    }
  }

  /** Controls in the middle of a control sequence are executed where they
      stand, and the sequence is dispatched as if they were not there. */
  lemma ControlsInside(c: Ctx, body: seq<Byte>, priv: seq<Byte>, ps: seq<Byte>, im: seq<Byte>, final: Byte, utf8On: bool)
    requires Valid(c) && HasAnywhere(c.state) && |priv| <= 1 && Between(priv, 0x3c, 0x3f)
    requires ParamText(ps) && Between(im, 0x20, 0x2f) && 0x40 <= final <= 0x7e
    requires forall i :: 0 <= i < |body| ==> IsControl(body[i]) || 0x20 <= body[i] <= 0x3f
    requires Stripped(body) == priv + ps + im
    ensures Trace(c, [ESC, 0x5b] + body + [final], utf8On)
            == ExitEvents(c) + Controls(body) + CsiEvents(priv + im, ps, final)
  {
    hide Run, Trace, Holds, ParamText, Between, CsiEvents, ExitEvents, Stripped, Controls;
    var start := [ESC, 0x5b];
    assert Act(EscEnter, 0x5b) == Action(None, Some(CsiEnter));
    Introduce(c, 0x5b, CsiEnter, utf8On);
    var d := Run(c, start, utf8On);
    CsiBody(d, d, body, utf8On);
    var e, f := Run(d, body, utf8On), Run(d, Stripped(body), utf8On);
    UnloggedNext(e, f, final, utf8On);
    var s := HeaderCollected(c, false, priv, ps, im, utf8On);
    Chunks(c, start, Stripped(body), utf8On);
    CsiFinal(f, priv + im, ps, final, utf8On);
    Chunks(c, start, body, utf8On);
    Chunks(c, start + body, [final], utf8On);
  }

  /** A control sequence cut short by CAN or SUB is dropped. */
  lemma ControlSequenceCut(c: Ctx, priv: seq<Byte>, ps: seq<Byte>, im: seq<Byte>, ch: Byte, utf8On: bool)
    requires Valid(c) && HasAnywhere(c.state) && |priv| <= 1 && Between(priv, 0x3c, 0x3f)
    requires ParamText(ps) && Between(im, 0x20, 0x2f) && (ch == CAN || ch == SUB)
    ensures var text := [ESC, 0x5b] + (priv + ps + im) + [ch];
            Run(c, text, utf8On).state.Ground? && Trace(c, text, utf8On) == ExitEvents(c) + [RunC0(ch)]
  {
    hide Run, Trace, Holds, ParamText, Between, ExitEvents;
    var s := HeaderCollected(c, false, priv, ps, im, utf8On);
    var start := [ESC, 0x5b] + (priv + ps + im);
    CancelByte(Run(c, start, utf8On), ch, utf8On);
    Chunks(c, start, [ch], utf8On);
  }

  // ----- Escape sequences

  lemma EscapeIntermediates(c: Ctx, im: seq<Byte>, utf8On: bool) returns (s: State)
    requires Valid(c) && c.state.EscEnter? && Holds(c, NO_BYTES) && Between(im, 0x20, 0x2f)
    ensures s == if im == [] then EscEnter else EscIntermediate
    ensures Quiet(c, NO_BYTES, im, utf8On, s, Collected(im, [], []))
  {
    hide Holds, Run, Trace;
    if im == [] {
      QuietBytes(c, NO_BYTES, [], Intermediate, utf8On);
      s := EscEnter;
    } else {
      QuietByte(c, NO_BYTES, im[0], Intermediate, utf8On);
      s := EscIntermediate;
      var d := Run(c, [im[0]], utf8On);
      QuietBytes(d, Add(NO_BYTES, Intermediate, [im[0]]), im[1..], Intermediate, utf8On);
      assert [im[0]] + im[1..] == im && [] + im == im;
      AddMore(NO_BYTES, Intermediate, [im[0]], im[1..]);
      QuietThen(c, NO_BYTES, [im[0]], im[1..], utf8On, s, Add(NO_BYTES, Intermediate, [im[0]]), s, Collected(im, [], []));
    }
  }

  /** The bytes after ESC that open another kind of sequence: P, X, [, ], ^, _
      and k. */
  const INTRODUCERS: seq<Byte> := [0x50, 0x58, 0x5b, 0x5d, 0x5e, 0x5f, 0x6b]

  /** An escape sequence: ESC, intermediates and a final byte. It is dispatched
      once, with its intermediates in order, unless there are more than three. */
  lemma EscapeSequence(c: Ctx, im: seq<Byte>, final: Byte, utf8On: bool)
    requires Valid(c) && HasAnywhere(c.state) && Between(im, 0x20, 0x2f) && 0x30 <= final <= 0x7e
    requires im == [] ==> final !in INTRODUCERS
    ensures var text := [ESC] + im + [final];
            && Run(c, text, utf8On).state.Ground?
            && Trace(c, text, utf8On) == ExitEvents(c) + if |im| <= 3 then [RunEsc(final, im)] else []
  {
    hide Run, Trace, Holds, Between, ExitEvents;
    Escape(c, utf8On);
    var d := Run(c, [ESC], utf8On);
    var s := EscapeIntermediates(d, im, utf8On);
    EscapeFinal(Run(d, im, utf8On), im, final, utf8On);
    Chunks(c, [ESC], im, utf8On);
    Chunks(c, [ESC] + im, [final], utf8On);
  }

  lemma EscapeFinal(c: Ctx, im: seq<Byte>, final: Byte, utf8On: bool)
    requires Valid(c) && c.state == (if im == [] then EscEnter else EscIntermediate) && Holds(c, Collected(im, [], []))
    requires 0x30 <= final <= 0x7e && (im == [] ==> final !in INTRODUCERS)
    ensures Run(c, [final], utf8On).state.Ground?
    ensures Trace(c, [final], utf8On) == if |im| <= 3 then [RunEsc(final, im)] else []
  {
    hide Run, Trace, Act;
    EscapeAct(c.state, final);
    RunOne(c, final, utf8On);
    assert !c.discard ==> c.interm == im;
  }

  lemma EscapeAct(s: State, final: Byte)
    requires s.EscIntermediate? || (s.EscEnter? && final !in INTRODUCERS)
    requires 0x30 <= final <= 0x7e
    ensures Act(s, final) == Action(Some(EscDispatch), Some(Ground))
  {}

  /** A string nothing handles, opened by ESC X or ESC ^, is dropped; only the
      ST that ends it is an escape sequence. */
  lemma StringIgnored(c: Ctx, opener: Byte, text: seq<Byte>, utf8On: bool)
    requires Valid(c) && HasAnywhere(c.state) && (opener == 0x58 || opener == 0x5e) && Between(text, 0x20, 0xff)
    ensures var whole := [ESC, opener] + text + [ESC, BACKSLASH];
            && Run(c, whole, utf8On).state.Ground?
            && Trace(c, whole, utf8On) == ExitEvents(c) + [RunEsc(BACKSLASH, [])]
  {
    hide Run, Trace, ExitEvents, Between;
    OpenIgnored(c, opener, utf8On);
    var start := [ESC, opener];
    var d := Run(c, start, utf8On);
    ConsumedBytes(d, text, utf8On);
    var e := Run(d, text, utf8On);
    EmptyHeader();
    EscapeSequence(e, [], BACKSLASH, utf8On);
    assert [ESC] + [] + [BACKSLASH] == [ESC, BACKSLASH];
    Chunks(c, start, text, utf8On);
    Chunks(c, start + text, [ESC, BACKSLASH], utf8On);
  }

  lemma EmptyHeader()
    ensures ParamText([]) && Between([], 0x3c, 0x3f) && Between([], 0x20, 0x2f)
  {}

  lemma OpenIgnored(c: Ctx, opener: Byte, utf8On: bool)
    requires Valid(c) && HasAnywhere(c.state) && (opener == 0x58 || opener == 0x5e)
    ensures Run(c, [ESC, opener], utf8On).state.ConsumeSt? && Trace(c, [ESC, opener], utf8On) == ExitEvents(c)
  {
    hide Run, Trace;
    Escape(c, utf8On);
    QuietMove(Run(c, [ESC], utf8On), NO_BYTES, opener, ConsumeSt, utf8On);
    Chunks(c, [ESC], [opener], utf8On);
    assert [ESC] + [opener] == [ESC, opener];
  }

  lemma {:induction false} ConsumedBytes(c: Ctx, text: seq<Byte>, utf8On: bool)
    requires Valid(c) && c.state.ConsumeSt? && Between(text, 0x20, 0xff)
    ensures Run(c, text, utf8On).state.ConsumeSt? && Trace(c, text, utf8On) == []
    ensures ExitEvents(Run(c, text, utf8On)) == []
    decreases |text|
  {
    hide Run, Trace;
    if text == [] {
      RunNothing(c, utf8On);
    } else {
      RunOne(c, text[0], utf8On);
      ConsumedBytes(Run(c, [text[0]], utf8On), text[1..], utf8On);
      Chunks(c, [text[0]], text[1..], utf8On);
      assert [text[0]] + text[1..] == text;
    }
  }

  // ----- Device control strings

  /** The escaping a device control string needs: ESC twice for each ESC. */
  function Doubled(data: seq<Byte>): seq<Byte> {
    if data == [] then []
    else (if data[0] == ESC then [ESC, ESC] else [data[0]]) + Doubled(data[1..])
  }

  lemma DataByte(c: Ctx, g: Collected, b: Byte, utf8On: bool)
    requires Valid(c) && c.state.DcsHandler? && Holds(c, g)
    ensures Quiet(c, g, if b == ESC then [ESC, ESC] else [b], utf8On, DcsHandler, Add(g, Input, [b]))
  {
    hide Holds, Run, Trace;
    if b == ESC {
      QuietMove(c, g, ESC, DcsEscape, utf8On);
      QuietByte(Run(c, [ESC], utf8On), g, ESC, Input, utf8On);
      QuietThen(c, g, [ESC], [ESC], utf8On, DcsEscape, g, DcsHandler, Add(g, Input, [b]));
      assert [ESC] + [ESC] == [ESC, ESC];
    } else {
      QuietByte(c, g, b, Input, utf8On);
    }
  }

  lemma {:induction false} DataBytes(c: Ctx, g: Collected, data: seq<Byte>, utf8On: bool)
    requires Valid(c) && c.state.DcsHandler? && Holds(c, g)
    ensures Quiet(c, g, Doubled(data), utf8On, DcsHandler, Add(g, Input, data))
    decreases |data|
  {
    hide Holds, Run, Trace, Act;
    if data == [] {
      QuietBytes(c, g, [], Input, utf8On);
    } else {
      var first := if data[0] == ESC then [ESC, ESC] else [data[0]];
      var h := Add(g, Input, [data[0]]);
      DataByte(c, g, data[0], utf8On);
      DataBytes(Run(c, first, utf8On), h, data[1..], utf8On);
      assert [data[0]] + data[1..] == data;
      AddMore(g, Input, [data[0]], data[1..]);
      QuietThen(c, g, first, Doubled(data[1..]), utf8On, DcsHandler, h, DcsHandler, Add(g, Input, data));
    }
  }

  /** Dropped if anything collected for it was too long. */
  function DataEvents(g: Collected): seq<Event> {
    if Overflowed(g) then [] else [RunDcs(g.input)]
  }

  lemma DataEnd(c: Ctx, g: Collected, utf8On: bool)
    requires Valid(c) && c.state.DcsHandler? && Holds(c, g)
    ensures Run(c, [ESC, BACKSLASH], utf8On).state.Ground?
    ensures Trace(c, [ESC, BACKSLASH], utf8On) == DataEvents(g)
  {
    hide Run, Trace, Holds;
    QuietMove(c, g, ESC, DcsEscape, utf8On);
    DispatchData(Run(c, [ESC], utf8On), g, utf8On);
    Chunks(c, [ESC], [BACKSLASH], utf8On);
    assert [ESC] + [BACKSLASH] == [ESC, BACKSLASH];
  }

  lemma DispatchData(c: Ctx, g: Collected, utf8On: bool)
    requires Valid(c) && c.state.DcsEscape? && Holds(c, g)
    ensures Run(c, [BACKSLASH], utf8On).state.Ground?
    ensures Trace(c, [BACKSLASH], utf8On) == DataEvents(g)
  {
    hide Run, Trace;
    RunOne(c, BACKSLASH, utf8On);
    assert |g.input| < INPUT_SIZE ==> g.input[..|g.input|] == g.input;
  }

  /** Any bytes at all can be passed in a device control string: after a header
      like that of a control sequence, with each ESC doubled, they arrive as they
      were, in one dispatch, if there are fewer than 256 with the first;
      otherwise nothing does. */
  lemma DeviceControl(c: Ctx, priv: seq<Byte>, ps: seq<Byte>, im: seq<Byte>, first: Byte, data: seq<Byte>, utf8On: bool)
    requires Valid(c) && HasAnywhere(c.state) && |priv| <= 1 && Between(priv, 0x3c, 0x3f)
    requires ParamText(ps) && Between(im, 0x20, 0x2f) && 0x40 <= first <= 0x7e
    ensures var whole := [ESC, 0x50] + (priv + ps + im) + [first] + Doubled(data) + [ESC, BACKSLASH];
            && Run(c, whole, utf8On).state.Ground?
            && Trace(c, whole, utf8On)
               == ExitEvents(c) + if |priv + im| <= 3 && |ps| <= 63 && 1 + |data| <= 255 then [RunDcs([first] + data)] else []
  {
    hide Run, Trace, Holds, ExitEvents, Doubled, Valid, ParamText, Between;
    var header := [ESC, 0x50] + (priv + ps + im);
    OpenData(c, priv, ps, im, first, utf8On);
    var e := Run(c, header + [first], utf8On);
    var end := [ESC, BACKSLASH];
    var g := Collected(priv + im, ps, [first]);
    DataBytes(e, g, data, utf8On);
    DataEnd(Run(e, Doubled(data), utf8On), Collected(priv + im, ps, [first] + data), utf8On);
    Chunks(c, header + [first], Doubled(data), utf8On);
    Chunks(c, header + [first] + Doubled(data), end, utf8On);
  }

  lemma OpenData(c: Ctx, priv: seq<Byte>, ps: seq<Byte>, im: seq<Byte>, first: Byte, utf8On: bool)
    requires Valid(c) && HasAnywhere(c.state) && |priv| <= 1 && Between(priv, 0x3c, 0x3f)
    requires ParamText(ps) && Between(im, 0x20, 0x2f) && 0x40 <= first <= 0x7e
    ensures var text := [ESC, 0x50] + (priv + ps + im) + [first];
            var d := Run(c, text, utf8On);
            && Valid(d) && d.state == DcsHandler && Holds(d, Collected(priv + im, ps, [first]))
            && Trace(c, text, utf8On) == ExitEvents(c)
  {
    hide Run, Trace, Holds, ExitEvents, ParamText, Between, Act;
    var s := HeaderCollected(c, true, priv, ps, im, utf8On);
    var header := [ESC, 0x50] + (priv + ps + im);
    FirstByte(s, first);
    QuietByte(Run(c, header, utf8On), Collected(priv + im, ps, []), first, Input, utf8On);
    assert [] + [first] == [first];
    Chunks(c, header, [first], utf8On);
  }

  lemma FirstByte(s: State, first: Byte)
    requires s == DcsEnter || s == DcsParameter || s == DcsIntermediate
    requires 0x40 <= first <= 0x7e
    ensures Act(s, first) == Action(Some(Input), Some(DcsHandler))
  {}

  // "tmux;"
  const PREFIX: seq<Byte> := [0x74, 0x6d, 0x75, 0x78, 0x3b]

  /** What input_dcs_dispatch writes to the terminal. */
  function RawString(data: seq<Byte>): Option<seq<Byte>> {
    if |data| >= |PREFIX| && data[..|PREFIX|] == PREFIX then Some(data[|PREFIX|..]) else None
  }

  lemma {:induction false} DoubledConcat(a: seq<Byte>, b: seq<Byte>)
    ensures Doubled(a + b) == Doubled(a) + Doubled(b)
  {
    if a == [] {
      assert a + b == b;
    } else {
      assert (a + b)[1..] == a[1..] + b;
      DoubledConcat(a[1..], b);
    }
  }

  /** Bytes sent through to the terminal reach it unchanged. */
  lemma PassThrough(c: Ctx, data: seq<Byte>, utf8On: bool)
    requires Valid(c) && HasAnywhere(c.state) && |PREFIX| + |data| < INPUT_SIZE
    ensures Trace(c, [ESC, 0x50] + PREFIX + Doubled(data) + [ESC, BACKSLASH], utf8On)
            == ExitEvents(c) + [RunDcs(PREFIX + data)]
    ensures RawString(PREFIX + data) == Some(data)
  {
    hide Trace, Run;
    var rest := PREFIX[1..];
    EmptyHeader();
    DeviceControl(c, [], [], [], PREFIX[0], rest + data, utf8On);
    DoubledConcat(rest, data);
    PlainPrefix();
    assert [PREFIX[0]] + (rest + data) == PREFIX + data;
    assert [ESC, 0x50] + ([] + [] + []) + [PREFIX[0]] + (rest + Doubled(data)) + [ESC, BACKSLASH]
        == [ESC, 0x50] + PREFIX + Doubled(data) + [ESC, BACKSLASH];
  }

  lemma PlainPrefix()
    ensures Doubled(PREFIX[1..]) == PREFIX[1..]
  {
    assert Doubled([0x3b]) == [0x3b] by { assert Doubled([]) == []; assert [0x3b as Byte][1..] == []; }
    assert [0x78 as Byte, 0x3b][1..] == [0x3b];
    assert [0x75 as Byte, 0x78, 0x3b][1..] == [0x78, 0x3b];
    assert [0x6d as Byte, 0x75, 0x78, 0x3b][1..] == [0x75, 0x78, 0x3b];
    assert PREFIX[1..] == [0x6d, 0x75, 0x78, 0x3b];
  }

  // ----- UTF-8 characters

  /** Bytes of a character, from its first byte. */
  function Length(lead: Byte): nat {
    if 0xc2 <= lead <= 0xdf then 2
    else if 0xe0 <= lead <= 0xef then 3
    else if 0xf0 <= lead <= 0xf4 then 4
    else 1
  }

  predicate IsCharacter(bytes: seq<Byte>) {
    |bytes| >= 2 && |bytes| == Length(bytes[0]) && Between(bytes[1..], 0x80, 0xbf)
  }

  lemma {:induction false} Continue(c: Ctx, bytes: seq<Byte>, utf8On: bool)
    requires Valid(c) && InUtf8(c.state) && |bytes| == Missing(c.state) && Between(bytes, 0x80, 0xbf)
    ensures Run(c, bytes, utf8On).state.Ground?
    ensures Trace(c, bytes, utf8On) == [PrintUtf8(c.utf8.data + bytes)]
    decreases |bytes|
  {
    hide Valid, Run, Trace;
    ContinueByte(c, bytes[0], utf8On);
    assert [bytes[0]] + bytes[1..] == bytes;
    assert c.utf8.data + [bytes[0]] + bytes[1..] == c.utf8.data + bytes;
    Chunks(c, [bytes[0]], bytes[1..], utf8On);
    var d := Run(c, [bytes[0]], utf8On);
    if |bytes| == 1 {
      assert bytes[1..] == [] && bytes == [bytes[0]];
      RunNothing(d, utf8On);
    } else {
      Continue(d, bytes[1..], utf8On);
      assert [] + Trace(d, bytes[1..], utf8On) == Trace(d, bytes[1..], utf8On);
    }
  }

  lemma ContinueByte(c: Ctx, ch: Byte, utf8On: bool)
    requires Valid(c) && InUtf8(c.state) && 0x80 <= ch <= 0xbf
    ensures var d := Run(c, [ch], utf8On);
            && d.utf8.data == c.utf8.data + [ch]
            && (if Missing(c.state) == 1 then d.state.Ground? && Trace(c, [ch], utf8On) == [PrintUtf8(c.utf8.data + [ch])]
                else Missing(d.state) == Missing(c.state) - 1 && Trace(c, [ch], utf8On) == [])
  {
    hide Run, Trace;
    RunOne(c, ch, utf8On);
  }

  /** A character is printed once, whole, when the option is on. */
  lemma Utf8Character(c: Ctx, bytes: seq<Byte>)
    requires Valid(c) && c.state.Ground? && IsCharacter(bytes)
    ensures Run(c, bytes, true).state.Ground? && Trace(c, bytes, true) == [PrintUtf8(bytes)]
  {
    hide Valid, Run, Trace;
    RunOne(c, bytes[0], true);
    assert [bytes[0]] + bytes[1..] == bytes;
    Chunks(c, [bytes[0]], bytes[1..], true);
    Continue(Run(c, [bytes[0]], true), bytes[1..], true);
  }

  function Bytewise(bytes: seq<Byte>): (r: seq<Event>)
    ensures |r| == |bytes| && forall i :: 0 <= i < |r| ==> r[i] == PrintByte(bytes[i])
  {
    seq(|bytes|, i requires 0 <= i < |bytes| => PrintByte(bytes[i]))
  }

  lemma {:induction false} PlainBytes(c: Ctx, bytes: seq<Byte>, utf8On: bool)
    requires Valid(c) && c.state.Ground? && Between(bytes, 0x20, 0x7e)
    ensures Run(c, bytes, utf8On) == c && Trace(c, bytes, utf8On) == Bytewise(bytes)
    decreases |bytes|
  {
    if bytes != [] {
      NextValid(c, bytes[0], utf8On);
      assert Next(c, bytes[0], utf8On) == c;
      PlainBytes(c, bytes[1..], utf8On);
    }
  }

  /** An ESC that cuts a UTF-8 character short is lost with it: a control
      sequence it would have begun is printed byte by byte instead. */
  lemma EscapeSwallowed(c: Ctx, text: seq<Byte>, utf8On: bool)
    requires Valid(c) && InUtf8(c.state) && Between(text, 0x20, 0x7e)
    ensures Run(c, [ESC] + text, utf8On).state.Ground?
    ensures Trace(c, [ESC] + text, utf8On) == Bytewise(text)
  {
    hide Valid, Run, Trace, Between;
    EscapeEnds(c, utf8On);
    Chunks(c, [ESC], text, utf8On);
    PlainBytes(Run(c, [ESC], utf8On), text, utf8On);
  }

  lemma EscapeEnds(c: Ctx, utf8On: bool)
    requires Valid(c) && InUtf8(c.state)
    ensures Run(c, [ESC], utf8On).state.Ground? && Trace(c, [ESC], utf8On) == []
  {
    RunOne(c, ESC, utf8On);
  }

  /** With the option off every byte of it is printed by itself. */
  lemma {:induction false} Utf8Off(c: Ctx, bytes: seq<Byte>)
    requires Valid(c) && c.state.Ground? && Between(bytes, 0x80, 0xff)
    ensures Run(c, bytes, false) == c && Trace(c, bytes, false) == Bytewise(bytes)
    decreases |bytes|
  {
    if bytes != [] {
      NextValid(c, bytes[0], false);
      assert Next(c, bytes[0], false) == c;
      Utf8Off(c, bytes[1..]);
    }
  }
}
