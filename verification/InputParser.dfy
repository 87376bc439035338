// One parser context and the effect of each byte on it (input_parse and its
// handlers in input.c).
module InputParser {
  import opened Common
  import opened InputTables
  import opened Decimals
  import opened InputSplit

  // Buffer sizes; the last byte of each is for the terminator.
  const INTERM_SIZE := 4
  const PARAM_SIZE := 64
  const INPUT_SIZE := 256

  /** A UTF-8 character being collected; `size` bytes make it complete. */
  datatype Utf8 = Utf8(data: seq<Byte>, size: nat)

  datatype Ctx = Ctx(
    state: State,
    interm: seq<Byte>,
    param: seq<Byte>,
    input: seq<Byte>,
    discard: bool,
    utf8: Utf8,
    sinceGround: seq<Byte>)

  /** The handler calls, with what each reads of this context. The attributes
      and the saved cursor that handlers also keep in theirs are not part of
      it. */
  datatype Event =
    | PrintByte(ch: Byte)
    | PrintUtf8(data: seq<Byte>)
    | RunC0(ch: Byte)
    | RunEsc(ch: Byte, interm: seq<Byte>)
    | RunCsi(ch: Byte, interm: seq<Byte>, params: seq<int>)
    | RunDcs(data: seq<Byte>)
    | RunOsc(data: seq<Byte>)
    | RunApc(data: seq<Byte>)
    | RunRename(data: seq<Byte>)

  // input_init
  function Fresh(): (c: Ctx)
    ensures Valid(c)
  {
    Ctx(Ground, [], [], [], false, Utf8([], 0), [])
  }

  // ----- Handlers

  // input_clear
  function Clear(c: Ctx): Ctx {
    c.(interm := [], param := [], input := [], discard := false)
  }

  // utf8_open
  function OpenUtf8(u: Utf8, ch: Byte): Utf8 {
    if 0xc2 <= ch <= 0xdf then Utf8([ch], 2)
    else if 0xe0 <= ch <= 0xef then Utf8([ch], 3)
    else if 0xf0 <= ch <= 0xf4 then Utf8([ch], 4)
    else Utf8([], 0)
  }

  /** The dispatch of a control sequence leaves the parameters as they are split,
      unless it is dropped. */
  function Handled(c: Ctx, h: Handler, ch: Byte): Ctx
    requires h.CsiDispatch? ==> ParamText(c.param)
  {
    match h
    case Intermediate =>
      if |c.interm| == INTERM_SIZE - 1 then c.(discard := true) else c.(interm := c.interm + [ch])
    case Parameter =>
      if |c.param| == PARAM_SIZE - 1 then c.(discard := true) else c.(param := c.param + [ch])
    case Input =>
      if |c.input| == INPUT_SIZE - 1 then c.(discard := true) else c.(input := c.input + [ch])
    case CsiDispatch => if c.discard then c else c.(param := SplitLeft(c.param))
    case Utf8Open => c.(utf8 := OpenUtf8(c.utf8, ch))
    case Utf8Add => c.(utf8 := Utf8(c.utf8.data + [ch], c.utf8.size))
    case Utf8Close => c.(utf8 := Utf8(c.utf8.data + [ch], c.utf8.size))
    case _ => c
  }

  /** A sequence is dropped when a buffer overflowed, and a control sequence
      also when its parameters cannot be split. */
  function HandlerEvents(c: Ctx, h: Handler, ch: Byte): seq<Event>
    requires h.CsiDispatch? ==> ParamText(c.param)
  {
    match h
    case Print => [PrintByte(ch)]
    case C0Dispatch => [RunC0(ch)]
    case EscDispatch => if c.discard then [] else [RunEsc(ch, c.interm)]
    case CsiDispatch =>
      if c.discard then []
      else (match SplitParams(c.param)
            case None => []
            case Some(ps) => [RunCsi(ch, c.interm, ps)])
    case DcsDispatch => if c.discard then [] else [RunDcs(c.input)]
    case Utf8Close => [PrintUtf8(c.utf8.data + [ch])]
    case _ => []
  }

  // ----- input_set_state

  function ExitEvents(c: Ctx): seq<Event> {
    if c.discard then []
    else match c.state
      case OscString => [RunOsc(c.input)]
      case ApcString => [RunApc(c.input)]
      case RenameString => [RunRename(c.input)]
      case _ => []
  }

  predicate ClearsOnEntry(s: State) {
    s.EscEnter? || s.CsiEnter? || s.DcsEnter? || s.OscString? || s.ApcString? || s.RenameString?
  }

  function SetState(c: Ctx, s: State): Ctx {
    var d := c.(state := s, sinceGround := if s.Ground? then [] else c.sinceGround);
    if ClearsOnEntry(s) then Clear(d) else d
  }

  // ----- One byte

  function Missing(s: State): nat {
    match s
    case Utf8Three => 3
    case Utf8Two => 2
    case Utf8One => 1
    case _ => 0
  }

  predicate InUtf8(s: State) {
    Missing(s) > 0
  }

  /** The states that read the collection buffers. */
  predicate Collecting(s: State) {
    !s.Ground? && !InUtf8(s)
  }

  /** While they are collected, parameters are digits and separators. */
  predicate Readable(c: Ctx) {
    Collecting(c.state) ==> ParamText(c.param)
  }

  lemma DispatchStates(s: State, ch: Byte)
    ensures Act(s, ch).handler == Some(CsiDispatch) ==> Collecting(s) && Act(s, ch).state == Some(Ground)
  {}

  /** With the utf8 option off the byte that would start a UTF-8 character is
      printed, and the state does not change. */
  predicate Refused(c: Ctx, ch: Byte, utf8On: bool) {
    Act(c.state, ch).handler == Some(Utf8Open) && !utf8On
  }

  function AfterHandler(c: Ctx, ch: Byte): Ctx
    requires Readable(c)
  {
    DispatchStates(c.state, ch);
    match Act(c.state, ch).handler
    case None => c
    case Some(h) => Handled(c, h, ch)
  }

  function Moved(c: Ctx, ch: Byte): Ctx
    requires Readable(c)
  {
    match Act(c.state, ch).state
    case None => AfterHandler(c, ch)
    case Some(s) => SetState(AfterHandler(c, ch), s)
  }

  function Next(c: Ctx, ch: Byte, utf8On: bool): Ctx
    requires Readable(c)
  {
    if Refused(c, ch, utf8On) then c
    else
      var d := Moved(c, ch);
      if d.state.Ground? then d else d.(sinceGround := d.sinceGround + [ch])
  }

  function Events(c: Ctx, ch: Byte, utf8On: bool): seq<Event>
    requires Readable(c)
  {
    DispatchStates(c.state, ch);
    var a := Act(c.state, ch);
    if Refused(c, ch, utf8On) then [PrintByte(ch)]
    else (if a.handler.None? then [] else HandlerEvents(c, a.handler.value, ch))
         + (if a.state.None? then [] else ExitEvents(AfterHandler(c, ch)))
  }

  // ----- What holds of every context

  /** The buffers never overflow, parameters are digits and separators while
      they are collected, the UTF-8 state says how many bytes are missing, and
      input is saved exactly outside the ground state. */
  predicate Valid(c: Ctx) {
    && |c.interm| < INTERM_SIZE && |c.param| < PARAM_SIZE && |c.input| < INPUT_SIZE
    && Readable(c)
    && (InUtf8(c.state) ==> |c.utf8.data| + Missing(c.state) == c.utf8.size <= 4)
    && (c.state.Ground? <==> c.sinceGround == [])
  }

  /** The parameter collector only ever gets digits and separators, and a byte
      is added to a UTF-8 character only where one is missing. */
  lemma HandlerFits(s: State, ch: Byte)
    ensures Act(s, ch).handler == Some(Parameter) ==> IsDigit(ch) || ch == SEMICOLON
    ensures Act(s, ch).handler == Some(Utf8Add) ==> Act(s, ch).state.Some? && Missing(Act(s, ch).state.value) == Missing(s) - 1 > 0
    ensures Act(s, ch).handler == Some(Utf8Close) ==> Act(s, ch).state == Some(Ground) && Missing(s) == 1
    ensures Act(s, ch).handler == Some(Utf8Open) ==>
              s.Ground? && Act(s, ch).state.Some?
              && !ClearsOnEntry(Act(s, ch).state.value)
              && var u, n := OpenUtf8(Utf8([], 0), ch), Missing(Act(s, ch).state.value);
              n > 0 && |u.data| == 1 && u.size == n + 1
    ensures Act(s, ch).state.Some? && InUtf8(Act(s, ch).state.value) ==> Act(s, ch).handler in [Some(Utf8Open), Some(Utf8Add)]
    ensures InUtf8(s) ==> Act(s, ch).state.Some? && (Act(s, ch).state.value.Ground? || InUtf8(Act(s, ch).state.value))
    ensures s.Ground? && Act(s, ch).state.Some? ==>
              var t := Act(s, ch).state.value; t.Ground? || InUtf8(t) || ClearsOnEntry(t)
    ensures s.Ground? ==> Act(s, ch).handler in [None, Some(Print), Some(C0Dispatch), Some(Utf8Open)]
    ensures InUtf8(s) ==> Act(s, ch).handler in [None, Some(Utf8Add), Some(Utf8Close)]
  {}

  /** The buffers after a handler, before the state changes. */
  lemma HandledFits(c: Ctx, h: Handler, ch: Byte)
    requires |c.interm| < INTERM_SIZE && |c.param| < PARAM_SIZE && |c.input| < INPUT_SIZE
    requires h == Parameter ==> IsDigit(ch) || ch == SEMICOLON
    requires h == CsiDispatch ==> ParamText(c.param)
    ensures var d := Handled(c, h, ch);
            && |d.interm| < INTERM_SIZE && |d.param| < PARAM_SIZE && |d.input| < INPUT_SIZE
            && (h != CsiDispatch && ParamText(c.param) ==> ParamText(d.param))
            && d.state == c.state && d.sinceGround == c.sinceGround
            && (h != Utf8Open && h != Utf8Add && h != Utf8Close ==> d.utf8 == c.utf8)
  {
    hide OpenUtf8;
  }

  lemma NextValid(c: Ctx, ch: Byte, utf8On: bool)
    requires Valid(c)
    ensures Readable(c) && Valid(Next(c, ch, utf8On))
    ensures var d := Next(c, ch, utf8On); |d.interm| <= 3 && |d.param| <= 63 && |d.input| <= 255
  {
    hide Act, OpenUtf8, ParamText, SplitLeft;
    HandlerFits(c.state, ch);
    DispatchStates(c.state, ch);
    OpenForgets(ch);
    if Act(c.state, ch).handler.Some? { HandledFits(c, Act(c.state, ch).handler.value, ch); }
    ClearedFits();
  }

  /** utf8_append is only called where a byte is missing, so its overflow
      checks never fail. */
  lemma Ready(c: Ctx, ch: Byte)
    requires Valid(c)
    ensures Readable(c)
    ensures Act(c.state, ch).handler == Some(CsiDispatch) ==> ParamText(c.param)
    ensures Act(c.state, ch).handler in [Some(Utf8Add), Some(Utf8Close)] ==> |c.utf8.data| < c.utf8.size <= 4
  {
    hide Act, OpenUtf8, ParamText;
    HandlerFits(c.state, ch);
    DispatchStates(c.state, ch);
  }

  lemma ClearedFits()
    ensures ParamText([])
  {}

  lemma OpenForgets(ch: Byte)
    ensures forall u :: OpenUtf8(u, ch) == OpenUtf8(Utf8([], 0), ch)
  {}

  // ----- Whole inputs

  function Run(c: Ctx, bytes: seq<Byte>, utf8On: bool): (r: Ctx)
    requires Valid(c)
    ensures Valid(r)
    decreases |bytes|
  {
    if bytes == [] then c
    else
      NextValid(c, bytes[0], utf8On);
      Run(Next(c, bytes[0], utf8On), bytes[1..], utf8On)
  }

  function Trace(c: Ctx, bytes: seq<Byte>, utf8On: bool): seq<Event>
    requires Valid(c)
    decreases |bytes|
  {
    if bytes == [] then []
    else
      NextValid(c, bytes[0], utf8On);
      Events(c, bytes[0], utf8On) + Trace(Next(c, bytes[0], utf8On), bytes[1..], utf8On)
  }

  /** However the input is divided among calls, the context and the handler
      calls are those of the whole input. */
  lemma {:induction false} Chunks(c: Ctx, a: seq<Byte>, b: seq<Byte>, utf8On: bool)
    requires Valid(c)
    ensures Run(c, a + b, utf8On) == Run(Run(c, a, utf8On), b, utf8On)
    ensures Trace(c, a + b, utf8On) == Trace(c, a, utf8On) + Trace(Run(c, a, utf8On), b, utf8On)
    decreases |a|
  {
    hide Next, Events, Valid;
    if a == [] {
      assert a + b == b;
    } else {
      assert (a + b)[0] == a[0] && (a + b)[1..] == a[1..] + b;
      NextValid(c, a[0], utf8On);
      Chunks(Next(c, a[0], utf8On), a[1..], b, utf8On);
    }
  }

  lemma RunNothing(c: Ctx, utf8On: bool)
    requires Valid(c)
    ensures Run(c, [], utf8On) == c && Trace(c, [], utf8On) == []
  {}

  lemma RunOne(c: Ctx, ch: Byte, utf8On: bool)
    requires Valid(c)
    ensures Valid(Next(c, ch, utf8On))
    ensures Run(c, [ch], utf8On) == Next(c, ch, utf8On) && Trace(c, [ch], utf8On) == Events(c, ch, utf8On)
  {
    hide Next, Events, Valid;
    NextValid(c, ch, utf8On);
    assert [ch][1..] == [];
  }

  lemma RunSnoc(c: Ctx, bytes: seq<Byte>, ch: Byte, utf8On: bool)
    requires Valid(c)
    ensures Run(c, bytes + [ch], utf8On) == Next(Run(c, bytes, utf8On), ch, utf8On)
    ensures Trace(c, bytes + [ch], utf8On) == Trace(c, bytes, utf8On) + Events(Run(c, bytes, utf8On), ch, utf8On)
  {
    hide Next, Events;
    Chunks(c, bytes, [ch], utf8On);
    RunOne(Run(c, bytes, utf8On), ch, utf8On);
  }

  // ----- What the buffers hold

  /** All bytes given to each collector since the buffers were last cleared, and
      whether the parameters have been split since. */
  datatype Collected = Collected(interm: seq<Byte>, param: seq<Byte>, input: seq<Byte>, split: bool := false)

  const NO_BYTES := Collected([], [], [])

  predicate Overflowed(g: Collected) {
    |g.interm| >= INTERM_SIZE || |g.param| >= PARAM_SIZE || |g.input| >= INPUT_SIZE
  }

  function Add(g: Collected, h: Handler, bytes: seq<Byte>): Collected {
    match h
    case Intermediate => g.(interm := g.interm + bytes)
    case Parameter => g.(param := g.param + bytes)
    case Input => g.(input := g.input + bytes)
    case CsiDispatch => if Overflowed(g) then g else g.(split := true)
    case _ => g
  }

  function Gather(g: Collected, s: State, ch: Byte): Collected {
    var a := Act(s, ch);
    if a.state.Some? && ClearsOnEntry(a.state.value) then NO_BYTES
    else if a.handler.None? then g
    else Add(g, a.handler.value, [ch])
  }

  function GatherAll(c: Ctx, g: Collected, bytes: seq<Byte>, utf8On: bool): Collected
    requires Valid(c)
    decreases |bytes|
  {
    if bytes == [] then g
    else
      NextValid(c, bytes[0], utf8On);
      GatherAll(Next(c, bytes[0], utf8On), Gather(g, c.state, bytes[0]), bytes[1..], utf8On)
  }

  /** Each buffer holds what was collected, cut at its size; parameters that
      have been split are what the split leaves of them. INPUT_DISCARD says that
      something was cut. */
  predicate Buffered(c: Ctx, g: Collected) {
    && c.interm == g.interm[..Min(|g.interm|, INTERM_SIZE - 1)]
    && (if g.split then ParamText(g.param) && !Overflowed(g) && c.param == SplitLeft(g.param)
        else c.param == g.param[..Min(|g.param|, PARAM_SIZE - 1)])
    && c.input == g.input[..Min(|g.input|, INPUT_SIZE - 1)]
    && (c.discard <==> Overflowed(g))
  }

  /** Where the buffers are read nothing has been split. */
  predicate Holds(c: Ctx, g: Collected) {
    Buffered(c, g) && (Collecting(c.state) ==> !g.split)
  }

  predicate Unbuffered(h: Handler) {
    h.Print? || h.C0Dispatch? || h.Utf8Open? || h.Utf8Add? || h.Utf8Close?
  }

  lemma HandledHolds(c: Ctx, g: Collected, h: Handler, ch: Byte)
    requires Buffered(c, g) && (h.CsiDispatch? ==> ParamText(c.param)) && (g.split ==> Unbuffered(h))
    ensures Buffered(Handled(c, h, ch), Add(g, h, [ch])) && Handled(c, h, ch).state == c.state
    ensures h.Utf8Open? ==> Add(g, h, [ch]) == g
    ensures Add(g, h, [ch]).split ==> g.split || h.CsiDispatch?
  {
    hide OpenUtf8;
    if h.CsiDispatch? && !c.discard { assert g.param[..|g.param|] == g.param; }
  }

  lemma GatherHolds(c: Ctx, g: Collected, ch: Byte, utf8On: bool)
    requires Holds(c, g) && Readable(c)
    ensures Holds(Next(c, ch, utf8On), Gather(g, c.state, ch))
  {
    hide Act, Handled, Add, ParamText, SplitLeft;
    HandlerFits(c.state, ch);
    DispatchStates(c.state, ch);
    var a := Act(c.state, ch);
    if a.handler.Some? { HandledHolds(c, g, a.handler.value, ch); }
  }

  /** At any time each buffer holds the bytes collected for it since the last
      clear, cut at its size, and INPUT_DISCARD says that one was cut: unless it
      is set, the buffers hold exactly what was collected, or, for parameters
      that have been split since, exactly what the split leaves of them. Where
      the buffers are read nothing has been split. */
  lemma {:induction false} BuffersHold(c: Ctx, g: Collected, bytes: seq<Byte>, utf8On: bool)
    requires Valid(c) && Holds(c, g)
    ensures Holds(Run(c, bytes, utf8On), GatherAll(c, g, bytes, utf8On))
    ensures var d, h := Run(c, bytes, utf8On), GatherAll(c, g, bytes, utf8On);
            && (h.split ==> !Collecting(d.state) && !d.discard && ParamText(h.param))
            && (!d.discard ==>
                  && d.interm == h.interm && d.input == h.input
                  && d.param == if h.split then SplitLeft(h.param) else h.param)
    decreases |bytes|
  {
    hide Next, Valid;
    if bytes != [] {
      NextValid(c, bytes[0], utf8On);
      GatherHolds(c, g, bytes[0], utf8On);
      BuffersHold(Next(c, bytes[0], utf8On), Gather(g, c.state, bytes[0]), bytes[1..], utf8On);
    }
  }
}
