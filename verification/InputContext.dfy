// The parser context as input.c holds it: fixed buffers with lengths, edited
// byte by byte, proved against InputParser.
module InputContext {
  import opened Common
  import opened InputTables
  import opened Decimals
  import opened InputSplit
  import opened InputParser

  const UTF8_SIZE := 9

  /** Halfway through a split: the numbers so far, and the buffer with the
      separators before ptr cleared. */
  ghost predicate Splitting(text: seq<Byte>, buf: seq<Byte>, ptr: nat, len: nat, had: seq<int>)
    requires ParamText(text)
  {
    && ptr <= len <= |buf| && |had| < PARAM_LIST_SIZE && ParamText(buf[ptr..len])
    && SplitParams(text) == Resumed(had, buf[ptr..len])
    && SplitLeft(text) == buf[..ptr] + Left(|had|, buf[ptr..len])
  }

  lemma SplittingStart(buf: seq<Byte>, len: nat)
    requires 0 < len <= |buf| && ParamText(buf[..len])
    ensures Splitting(buf[..len], buf, 0, len, [])
  {
    hide Resumed, Left;
    ResumedStart(buf[..len]);
    assert buf[0..len] == buf[..len] && buf[..0] == [];
  }

  lemma SplittingRest(text: seq<Byte>, buf: seq<Byte>, ptr: nat, len: nat, had: seq<int>)
    requires ParamText(text) && Splitting(text, buf, ptr, len, had)
    ensures ptr <= len <= |buf| && ParamText(buf[ptr..len])
  {}

  lemma NothingSplit()
    ensures ParamText([]) && SplitParams([]) == Some([]) && SplitLeft([]) == []
  {}

  // What a buffer holds when the byte after a field of n bytes at ptr is cleared.
  lemma FieldTaken(buf: seq<Byte>, ptr: nat, len: nat, n: nat)
    requires ptr + n <= len <= |buf|
    ensures var rest, now := buf[ptr..len], if ptr + n < len then buf[ptr + n := 0] else buf;
            && now[ptr..ptr + n] == rest[..n]
            && now[..len] == buf[..ptr] + (if ptr + n < len then rest[..n] + [0] + rest[n + 1..] else rest)
            && (ptr + n < len ==>
                  && now[..ptr + n + 1] == buf[..ptr] + (rest[..n] + [0])
                  && now[ptr + n + 1..len] == rest[n + 1..])
  {}

  // One turn of the loop.
  lemma SplittingStep(text: seq<Byte>, buf: seq<Byte>, ptr: nat, len: nat, had: seq<int>, n: nat)
    requires ParamText(text) && Splitting(text, buf, ptr, len, had) && n == FieldEnd(buf[ptr..len])
    ensures ptr + n <= len
    ensures var more := ptr + n < len;
            var now := if more then buf[ptr + n := 0] else buf;
            AllDigits(now[ptr..ptr + n]) &&
            var number := Number(now[ptr..ptr + n]);
            if number.None? || |had| + 1 == PARAM_LIST_SIZE
            then SplitParams(text) == None && SplitLeft(text) == now[..len]
            else if more then Splitting(text, now, ptr + n + 1, len, had + [number.value])
            else SplitParams(text) == Some(had + [number.value]) && SplitLeft(text) == now[..len]
  {
    hide Resumed, Left, FieldEnd, Number, ParamText, SplitParams, SplitLeft;
    var rest := buf[ptr..len];
    ResumedStep(had, rest);
    LeftStep(|had|, rest);
    FieldTaken(buf, ptr, len, n);
    if ptr + n < len {
      var full := Number(rest[..n]).None? || |had| + 1 == PARAM_LIST_SIZE;
      Concat(buf[..ptr], rest[..n] + [0], if full then rest[n + 1..] else Left(|had| + 1, rest[n + 1..]));
    }
  }

  class InputCtx {
    const intermBuf: array<Byte>
    var intermLen: nat
    const paramBuf: array<Byte>
    var paramLen: nat
    const inputBuf: array<Byte>
    var inputLen: nat
    const paramList: array<int>
    var paramListLen: nat

    const utf8Data: array<Byte>
    var utf8Have: nat
    var utf8Size: nat

    var ch: Byte
    var discard: bool
    var state: State
    var sinceGround: seq<Byte>

    // What the handlers have asked of the screen and the window so far.
    var calls: seq<Event>

    ghost predicate Shaped()
      reads this, intermBuf, paramBuf, inputBuf
    {
      && intermBuf.Length == INTERM_SIZE && paramBuf.Length == PARAM_SIZE && inputBuf.Length == INPUT_SIZE
      && paramList.Length == PARAM_LIST_SIZE && utf8Data.Length == UTF8_SIZE
      && intermBuf != paramBuf && intermBuf != inputBuf && paramBuf != inputBuf
      && utf8Data != intermBuf && utf8Data != paramBuf && utf8Data != inputBuf
      && intermLen < INTERM_SIZE && paramLen < PARAM_SIZE && inputLen < INPUT_SIZE
      && intermBuf[intermLen] == 0 && paramBuf[paramLen] == 0 && inputBuf[inputLen] == 0
      && utf8Have <= UTF8_SIZE
    }

    ghost function Value(): Ctx
      reads this, intermBuf, paramBuf, inputBuf, utf8Data
      requires Shaped()
    {
      Ctx(state, intermBuf[..intermLen], paramBuf[..paramLen], inputBuf[..inputLen], discard,
          Utf8(utf8Data[..utf8Have], utf8Size), sinceGround)
    }

    // input_init, but for the attributes and the saved cursor
    constructor ()
      ensures Shaped() && Value() == Fresh() && calls == []
      ensures fresh(intermBuf) && fresh(paramBuf) && fresh(inputBuf) && fresh(utf8Data) && fresh(paramList)
    {
      intermBuf := new Byte[INTERM_SIZE](_ => 0);
      paramBuf := new Byte[PARAM_SIZE](_ => 0);
      inputBuf := new Byte[INPUT_SIZE](_ => 0);
      paramList := new int[PARAM_LIST_SIZE];
      utf8Data := new Byte[UTF8_SIZE](_ => 0);
      intermLen, paramLen, inputLen, paramListLen := 0, 0, 0, 0;
      utf8Have, utf8Size := 0, 0;
      discard, state, sinceGround, calls := false, Ground, [], [];
      ch := 0;
    }

    // input_clear
    method ClearBuffers()
      requires Shaped()
      modifies this`intermLen, this`paramLen, this`inputLen, this`discard, intermBuf, paramBuf, inputBuf
      ensures Shaped() && Value() == Clear(old(Value()))
    {
      intermBuf[0] := 0;
      intermLen := 0;
      paramBuf[0] := 0;
      paramLen := 0;
      inputBuf[0] := 0;
      inputLen := 0;
      discard := false;
    }

    // input_intermediate
    method CollectIntermediate()
      requires Shaped()
      modifies this`intermLen, this`discard, intermBuf
      ensures Shaped() && Value() == Handled(old(Value()), Intermediate, ch)
    {
      if intermLen == intermBuf.Length - 1 {
        discard := true;
      } else {
        intermBuf[intermLen] := ch;
        intermLen := intermLen + 1;
        intermBuf[intermLen] := 0;
      }
    }

    // input_parameter
    method CollectParameter()
      requires Shaped()
      modifies this`paramLen, this`discard, paramBuf
      ensures Shaped() && Value() == Handled(old(Value()), Parameter, ch)
    {
      if paramLen == paramBuf.Length - 1 {
        discard := true;
      } else {
        paramBuf[paramLen] := ch;
        paramLen := paramLen + 1;
        paramBuf[paramLen] := 0;
      }
    }

    // input_input
    method CollectInput()
      requires Shaped()
      modifies this`inputLen, this`discard, inputBuf
      ensures Shaped() && Value() == Handled(old(Value()), Input, ch)
    {
      if inputLen == inputBuf.Length - 1 {
        discard := true;
      } else {
        inputBuf[inputLen] := ch;
        inputLen := inputLen + 1;
        inputBuf[inputLen] := 0;
      }
    }

    // strsep(&ptr, ";"): the field at ptr ends at the next separator, which it
    // overwrites, or at the terminator.
    method TakeField(ptr: nat) returns (n: nat, more: bool)
      requires Shaped() && ptr <= paramLen && ParamText(paramBuf[ptr..paramLen])
      modifies paramBuf
      ensures n == FieldEnd(old(paramBuf[ptr..paramLen])) && more == (ptr + n < paramLen)
      ensures paramBuf[..] == if more then old(paramBuf[..])[ptr + n := 0] else old(paramBuf[..])
    {
      ghost var rest := paramBuf[ptr..paramLen];
      n := 0;
      while paramBuf[ptr + n] != SEMICOLON && paramBuf[ptr + n] != 0
        invariant ptr + n <= paramLen && SEMICOLON !in rest[..n]
        invariant paramBuf[..] == old(paramBuf[..])
        decreases paramLen - n
      {
        assert paramBuf[ptr + n] == rest[n];
        n := n + 1;
      }
      assert ptr + n < paramLen ==> rest[n] == paramBuf[ptr + n];
      FieldEndAt(rest, n);
      more := paramBuf[ptr + n] == SEMICOLON;
      if more {
        paramBuf[ptr + n] := 0;
      }
    }

    // input_split
    method Split() returns (ok: bool)
      requires Shaped() && ParamText(paramBuf[..paramLen])
      modifies this`paramListLen, paramList, paramBuf
      ensures Shaped() && paramBuf[..paramLen] == SplitLeft(old(paramBuf[..paramLen]))
      ensures ok <==> SplitParams(old(paramBuf[..paramLen])).Some?
      ensures ok ==> paramListLen < PARAM_LIST_SIZE
                     && SplitParams(old(paramBuf[..paramLen])) == Some(paramList[..paramListLen])
    {
      hide Splitting, SplitParams, SplitLeft, FieldEnd, Number, Value, ParamText;
      paramListLen := 0;
      if paramLen == 0 {
        NothingSplit();
        return true;
      }
      ghost var text := paramBuf[..paramLen];
      var ptr, more := 0, true;
      SplittingStart(paramBuf[..], paramLen);
      assert text == paramBuf[..][..paramLen] && paramList[..0] == [];
      while more
        invariant paramListLen < PARAM_LIST_SIZE && ptr <= paramLen && paramBuf[paramLen] == 0
        invariant more ==> Splitting(text, paramBuf[..], ptr, paramLen, paramList[..paramListLen])
        invariant !more ==> SplitParams(text) == Some(paramList[..paramListLen]) && SplitLeft(text) == paramBuf[..paramLen]
        decreases if more then paramLen - ptr + 1 else 0
      {
        ghost var buf, had := paramBuf[..], paramList[..paramListLen];
        SplittingRest(text, buf, ptr, paramLen, had);
        assert buf[ptr..paramLen] == paramBuf[ptr..paramLen];
        var n;
        n, more := TakeField(ptr);
        SplittingStep(text, buf, ptr, paramLen, had, n);
        ghost var now := paramBuf[..];
        assert now[..paramLen] == paramBuf[..paramLen] && now[ptr..ptr + n] == paramBuf[ptr..ptr + n];
        var number := Number(paramBuf[ptr..ptr + n]);
        if number.None? {
          return false;
        }
        paramList[paramListLen] := number.value;
        paramListLen := paramListLen + 1;
        assert paramList[..paramListLen] == had + [number.value];
        if paramListLen == paramList.Length {
          return false;
        }
        if more {
          ptr := ptr + n + 1;
        }
      }
      ok := true;
    }

    // ----- Dispatch

    // input_esc_dispatch
    method EscDispatch()
      requires Shaped()
      modifies this`calls
      ensures Shaped() && Value() == old(Value())
      ensures calls == old(calls) + HandlerEvents(old(Value()), Handler.EscDispatch, ch)
    {
      if discard {
        return;
      }
      calls := calls + [RunEsc(ch, intermBuf[..intermLen])];
    }

    // input_csi_dispatch
    method CsiDispatch()
      requires Shaped() && ParamText(Value().param)
      modifies this`calls, this`paramListLen, paramList, paramBuf
      ensures Shaped() && Value() == Handled(old(Value()), Handler.CsiDispatch, ch)
      ensures calls == old(calls) + HandlerEvents(old(Value()), Handler.CsiDispatch, ch)
    {
      if discard {
        return;
      }
      var ok := Split();
      if !ok {
        return;
      }
      calls := calls + [RunCsi(ch, intermBuf[..intermLen], paramList[..paramListLen])];
    }

    // input_dcs_dispatch
    method DcsDispatch()
      requires Shaped()
      modifies this`calls
      ensures Shaped() && Value() == old(Value())
      ensures calls == old(calls) + HandlerEvents(old(Value()), Handler.DcsDispatch, ch)
    {
      if discard {
        return;
      }
      calls := calls + [RunDcs(inputBuf[..inputLen])];
    }

    // input_utf8_open after the option check, with utf8_open.
    method StartUtf8()
      requires Shaped()
      modifies this`utf8Have, this`utf8Size, utf8Data
      ensures Shaped() && Value() == Handled(old(Value()), Utf8Open, ch)
    {
      utf8Have := 0;
      if 0xc2 <= ch <= 0xdf {
        utf8Size := 2;
      } else if 0xe0 <= ch <= 0xef {
        utf8Size := 3;
      } else if 0xf0 <= ch <= 0xf4 {
        utf8Size := 4;
      } else {
        utf8Size := 0;
        return;
      }
      AppendUtf8();
    }

    // utf8_append; the overflow checks are the precondition.
    method AppendUtf8()
      requires Shaped() && utf8Have < utf8Size <= UTF8_SIZE
      modifies this`utf8Have, utf8Data
      ensures Shaped() && Value() == Handled(old(Value()), Utf8Add, ch)
    {
      utf8Data[utf8Have] := ch;
      utf8Have := utf8Have + 1;
    }

    // ----- input_parse

    // The handler of a transition; it refuses to let the state change only for
    // a UTF-8 character with the option off.
    method CallHandler(h: Handler, utf8On: bool) returns (refused: bool)
      requires Shaped() && (h.CsiDispatch? ==> ParamText(Value().param))
      requires h.Utf8Add? || h.Utf8Close? ==> utf8Have < utf8Size <= UTF8_SIZE
      modifies this`intermLen, this`paramLen, this`inputLen, this`discard, this`utf8Have, this`utf8Size
      modifies this`calls, this`paramListLen, intermBuf, paramBuf, inputBuf, paramList, utf8Data
      ensures Shaped() && refused == (h.Utf8Open? && !utf8On)
      ensures Value() == if refused then old(Value()) else Handled(old(Value()), h, ch)
      ensures calls == old(calls) + if refused then [PrintByte(ch)] else HandlerEvents(old(Value()), h, ch)
    {
      hide ParamText, Valid, SplitParams;
      refused := false;
      match h
      case Print => calls := calls + [PrintByte(ch)];
      case Intermediate => CollectIntermediate();
      case Parameter => CollectParameter();
      case Input => CollectInput();
      case C0Dispatch => calls := calls + [RunC0(ch)];
      case EscDispatch => EscDispatch();
      case CsiDispatch => CsiDispatch();
      case DcsDispatch => DcsDispatch();
      case Utf8Open =>
        if !utf8On {
          calls := calls + [PrintByte(ch)];
          refused := true;
        } else {
          StartUtf8();
        }
      case Utf8Add => AppendUtf8();
      case Utf8Close =>
        AppendUtf8();
        calls := calls + [PrintUtf8(utf8Data[..utf8Have])];
    }

    // The exit function of a state.
    method ExitState()
      requires Shaped()
      modifies this`calls
      ensures Shaped() && Value() == old(Value()) && calls == old(calls) + ExitEvents(old(Value()))
    {
      if discard {
        return;
      }
      var text := inputBuf[..inputLen];
      match state
      case OscString => calls := calls + [RunOsc(text)];
      case ApcString => calls := calls + [RunApc(text)];
      case RenameString => calls := calls + [RunRename(text)];
      case _ =>
    }

    // input_set_state
    method ChangeState(s: State)
      requires Shaped()
      modifies this`intermLen, this`paramLen, this`inputLen, this`discard, this`state, this`sinceGround, this`calls
      modifies intermBuf, paramBuf, inputBuf
      ensures Shaped() && Value() == SetState(old(Value()), s)
      ensures calls == old(calls) + ExitEvents(old(Value()))
    {
      ExitState();
      if s.Ground? {
        sinceGround := [];
      }
      state := s;
      if ClearsOnEntry(s) {
        ClearBuffers();
      }
    }

    // One turn of the loop of input_parse.
    method ParseByte(b: Byte, utf8On: bool)
      requires Shaped() && Valid(Value())
      modifies this, intermBuf, paramBuf, inputBuf, paramList, utf8Data
      ensures Shaped() && Value() == Next(old(Value()), b, utf8On)
      ensures calls == old(calls) + Events(old(Value()), b, utf8On)
    {
      hide Act, Handled, HandlerEvents, SetState, ExitEvents, ParamText, Valid;
      ghost var c, was := Value(), calls;
      Ready(c, b);
      ch := b;
      var itr := FindTransition(state, ch);
      if itr.handler.Some? {
        var refused := CallHandler(itr.handler.value, utf8On);
        if refused {
          return;
        }
      }
      ghost var first := if itr.handler.None? then [] else HandlerEvents(c, itr.handler.value, b);
      ghost var second := if itr.state.None? then [] else ExitEvents(Value());
      assert calls == was + first && Value() == AfterHandler(c, b);
      if itr.state.Some? {
        ChangeState(itr.state.value);
      }
      Concat(was, first, second);
      if state != Ground {
        sinceGround := sinceGround + [ch];
      }
    }

    // input_parse
    method Parse(buf: seq<Byte>, utf8On: bool)
      requires Shaped() && Valid(Value())
      modifies this, intermBuf, paramBuf, inputBuf, paramList, utf8Data
      ensures Shaped() && Valid(Value()) && Value() == Run(old(Value()), buf, utf8On)
      ensures calls == old(calls) + Trace(old(Value()), buf, utf8On)
    {
      hide Valid, Run, Trace, Next, Events;
      ghost var c := Value();
      var off := 0;
      RunNothing(c, utf8On);
      assert buf[..0] == [];
      while off < |buf|
        invariant off <= |buf| && Shaped() && Valid(Value())
        invariant Value() == Run(c, buf[..off], utf8On) && calls == old(calls) + Trace(c, buf[..off], utf8On)
      {
        RunSnoc(c, buf[..off], buf[off], utf8On);
        NextValid(Value(), buf[off], utf8On);
        assert buf[..off] + [buf[off]] == buf[..off + 1];
        ParseByte(buf[off], utf8On);
        off := off + 1;
      }
      assert buf[..off] == buf;
    }
  }
}
