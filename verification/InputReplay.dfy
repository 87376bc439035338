// The input saved since the ground state is enough to resume parsing.
module InputReplay {
  import opened Common
  import opened InputTables
  import opened InputSplit
  import opened InputParser

  /** Contexts that no input can tell apart: what the state still reads is the
      same. In the ground state that is nothing, inside a UTF-8 character the
      bytes so far, elsewhere the collection buffers. */
  predicate Same(a: Ctx, b: Ctx) {
    && a.state == b.state && a.sinceGround == b.sinceGround
    && (InUtf8(a.state) ==> a.utf8 == b.utf8)
    && (Collecting(a.state) ==>
          a.interm == b.interm && a.param == b.param && a.input == b.input && a.discard == b.discard)
  }

  // In the ground state no handler reads a buffer, and whatever is read later
  // is cleared or opened on the way out.
  lemma GroundNext(a: Ctx, b: Ctx, ch: Byte, utf8On: bool)
    requires Same(a, b) && Valid(a) && Valid(b) && a.state.Ground?
    ensures Same(Next(a, ch, utf8On), Next(b, ch, utf8On))
    ensures Events(a, ch, utf8On) == Events(b, ch, utf8On)
  {
    hide Act, OpenUtf8, SplitParams, ParamText;
    HandlerFits(a.state, ch);
    OpenForgets(ch);
  }

  // Inside a UTF-8 character only its bytes are read.
  lemma Utf8Next(a: Ctx, b: Ctx, ch: Byte, utf8On: bool)
    requires Same(a, b) && Valid(a) && Valid(b) && InUtf8(a.state)
    ensures Same(Next(a, ch, utf8On), Next(b, ch, utf8On))
    ensures Events(a, ch, utf8On) == Events(b, ch, utf8On)
  {
    hide Act, OpenUtf8, SplitParams, ParamText;
    HandlerFits(a.state, ch);
  }

  lemma HandledUtf8(a: Ctx, u: Utf8, h: Handler, ch: Byte)
    requires ParamText(a.param) && !h.Utf8Open? && !h.Utf8Add? && !h.Utf8Close?
    ensures Handled(a.(utf8 := u), h, ch) == Handled(a, h, ch).(utf8 := u)
    ensures HandlerEvents(a.(utf8 := u), h, ch) == HandlerEvents(a, h, ch)
    ensures Handled(a, h, ch).state == a.state
  {
    hide SplitParams, ParamText;
  }

  lemma SetStateUtf8(a: Ctx, u: Utf8, s: State)
    ensures SetState(a.(utf8 := u), s) == SetState(a, s).(utf8 := u) && SetState(a, s).state == s
    ensures ExitEvents(a.(utf8 := u)) == ExitEvents(a)
  {}

  // Elsewhere the UTF-8 character is not read.
  lemma BufferedNext(a: Ctx, u: Utf8, ch: Byte, utf8On: bool)
    requires ParamText(a.param) && Collecting(a.state)
    ensures Next(a.(utf8 := u), ch, utf8On) == Next(a, ch, utf8On).(utf8 := u)
    ensures Events(a.(utf8 := u), ch, utf8On) == Events(a, ch, utf8On)
    ensures !InUtf8(Next(a, ch, utf8On).state)
  {
    hide Act, Handled, HandlerEvents, SetState, ExitEvents, ParamText;
    HandlerFits(a.state, ch);
    var act := Act(a.state, ch);
    if act.handler.Some? { HandledUtf8(a, u, act.handler.value, ch); }
    if act.state.Some? { SetStateUtf8(AfterHandler(a, ch), u, act.state.value); }
  }

  /** One byte: the same handler calls, and contexts that are the same again. */
  lemma SameNext(a: Ctx, b: Ctx, ch: Byte, utf8On: bool)
    requires Same(a, b) && Valid(a) && Valid(b)
    ensures Same(Next(a, ch, utf8On), Next(b, ch, utf8On))
    ensures Events(a, ch, utf8On) == Events(b, ch, utf8On)
  {
    hide Next, Events;
    if a.state.Ground? {
      GroundNext(a, b, ch, utf8On);
    } else if InUtf8(a.state) {
      Utf8Next(a, b, ch, utf8On);
    } else {
      assert b == a.(utf8 := b.utf8);
      BufferedNext(a, b.utf8, ch, utf8On);
    }
  }

  lemma {:induction false} SameRun(a: Ctx, b: Ctx, bytes: seq<Byte>, utf8On: bool)
    requires Same(a, b) && Valid(a) && Valid(b)
    ensures Same(Run(a, bytes, utf8On), Run(b, bytes, utf8On))
    ensures Trace(a, bytes, utf8On) == Trace(b, bytes, utf8On)
    decreases |bytes|
  {
    hide Next, Events, Same, Valid;
    if bytes != [] {
      NextValid(a, bytes[0], utf8On);
      NextValid(b, bytes[0], utf8On);
      SameNext(a, b, bytes[0], utf8On);
      SameRun(Next(a, bytes[0], utf8On), Next(b, bytes[0], utf8On), bytes[1..], utf8On);
    }
  }

  /** Any two contexts in the ground state make the same handler calls from then
      on. */
  lemma GroundForgets(a: Ctx, b: Ctx, bytes: seq<Byte>, utf8On: bool)
    requires Valid(a) && Valid(b) && a.state.Ground? && b.state.Ground?
    ensures Trace(a, bytes, utf8On) == Trace(b, bytes, utf8On)
    ensures Same(Run(a, bytes, utf8On), Run(b, bytes, utf8On))
  {
    SameRun(a, b, bytes, utf8On);
  }

  // ----- The log

  lemma NextLog(c: Ctx, ch: Byte, utf8On: bool)
    requires Valid(c)
    ensures Readable(c)
    ensures var d := Next(c, ch, utf8On);
            d.sinceGround == if d.state.Ground? then [] else c.sinceGround + [ch]
  {
    hide Act, OpenUtf8, Handled, ParamText;
    HandlerFits(c.state, ch);
    HandledLog(c, ch);
  }

  lemma HandledLog(c: Ctx, ch: Byte)
    requires Readable(c)
    ensures AfterHandler(c, ch).sinceGround == c.sinceGround && AfterHandler(c, ch).state == c.state
  {
    hide Act, OpenUtf8;
  }

  /** The parser is in the ground state after the first j bytes. */
  predicate GroundAt(bytes: seq<Byte>, j: nat, utf8On: bool)
    requires j <= |bytes|
  {
    Run(Fresh(), bytes[..j], utf8On).state.Ground?
  }

  lemma GroundAtShorter(was: seq<Byte>, ch: Byte, j: nat, utf8On: bool)
    requires j <= |was|
    ensures GroundAt(was + [ch], j, utf8On) == GroundAt(was, j, utf8On)
  {
    assert (was + [ch])[..j] == was[..j];
  }

  lemma GroundAtEnd(bytes: seq<Byte>, utf8On: bool)
    ensures GroundAt(bytes, |bytes|, utf8On) == Run(Fresh(), bytes, utf8On).state.Ground?
  {
    assert bytes[..|bytes|] == bytes;
  }

  /** Not in the ground state from k + 1 bytes on. */
  predicate AwaySince(bytes: seq<Byte>, k: nat, utf8On: bool) {
    forall j :: k < j <= |bytes| ==> !GroundAt(bytes, j, utf8On)
  }

  lemma AwayAtEnd(bytes: seq<Byte>, utf8On: bool)
    ensures AwaySince(bytes, |bytes|, utf8On)
  {}

  lemma AwayLonger(was: seq<Byte>, ch: Byte, k: nat, utf8On: bool)
    requires k <= |was| && GroundAt(was, k, utf8On) && AwaySince(was, k, utf8On)
    requires !Run(Fresh(), was + [ch], utf8On).state.Ground?
    ensures GroundAt(was + [ch], k, utf8On) && AwaySince(was + [ch], k, utf8On)
  {
    hide Run, GroundAt;
    GroundAtShorter(was, ch, k, utf8On);
    GroundAtEnd(was + [ch], utf8On);
    forall j | k < j <= |was| + 1 ensures !GroundAt(was + [ch], j, utf8On) {
      if j <= |was| { GroundAtShorter(was, ch, j, utf8On); }
    }
  }

  /** The log is what came since the parser was last in the ground state. */
  lemma {:induction false} LogIsTail(bytes: seq<Byte>, utf8On: bool) returns (k: nat)
    ensures k <= |bytes| && Run(Fresh(), bytes, utf8On).sinceGround == bytes[k..]
    ensures GroundAt(bytes, k, utf8On) && AwaySince(bytes, k, utf8On)
    decreases |bytes|
  {
    hide Next, Valid, Run, GroundAt, AwaySince;
    GroundAtEnd(bytes, utf8On);
    AwayAtEnd(bytes, utf8On);
    if bytes == [] {
      RunNothing(Fresh(), utf8On);
      k := 0;
    } else {
      var was, ch := bytes[..|bytes| - 1], bytes[|bytes| - 1];
      assert bytes == was + [ch];
      RunSnoc(Fresh(), was, ch, utf8On);
      NextLog(Run(Fresh(), was, utf8On), ch, utf8On);
      if Run(Fresh(), bytes, utf8On).state.Ground? {
        k := |bytes|;
      } else {
        k := LogIsTail(was, utf8On);
        assert bytes[k..] == was[k..] + [ch];
        AwayLonger(was, ch, k, utf8On);
      }
    }
  }

  /** A fresh parser given the log is in the same state, with the same live
      buffers, as the parser that saved it. */
  lemma {:induction false} LogReplays(bytes: seq<Byte>, utf8On: bool)
    ensures var c := Run(Fresh(), bytes, utf8On); Same(Run(Fresh(), c.sinceGround, utf8On), c)
    decreases |bytes|
  {
    hide Next, Valid, Run;
    RunNothing(Fresh(), utf8On);
    if bytes != [] {
      var was, ch := bytes[..|bytes| - 1], bytes[|bytes| - 1];
      assert bytes == was + [ch];
      RunSnoc(Fresh(), was, ch, utf8On);
      var c := Run(Fresh(), was, utf8On);
      NextLog(c, ch, utf8On);
      if !Next(c, ch, utf8On).state.Ground? {
        LogReplays(was, utf8On);
        RunSnoc(Fresh(), c.sinceGround, ch, utf8On);
        SameNext(Run(Fresh(), c.sinceGround, utf8On), c, ch, utf8On);
      }
    }
  }

  /** Resuming: whatever was parsed and whatever follows, a fresh parser that is
      given the log first makes the same handler calls for the rest of the input
      and stays indistinguishable. */
  lemma Resume(bytes: seq<Byte>, more: seq<Byte>, utf8On: bool)
    ensures var c := Run(Fresh(), bytes, utf8On);
            var r := Run(Fresh(), c.sinceGround, utf8On);
            && Same(r, c)
            && Trace(r, more, utf8On) == Trace(c, more, utf8On)
            && Same(Run(r, more, utf8On), Run(c, more, utf8On))
  {
    LogReplays(bytes, utf8On);
    var c := Run(Fresh(), bytes, utf8On);
    SameRun(Run(Fresh(), c.sinceGround, utf8On), c, more, utf8On);
  }
}
