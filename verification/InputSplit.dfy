// The parameter list of a control sequence (input_split in input.c).
module InputSplit {
  import opened Common
  import opened Decimals

  const INT_MAX := 0x7FFF_FFFF
  // Elements in param_list; the list is never filled.
  const PARAM_LIST_SIZE := 24
  const SEMICOLON: Byte := 0x3b

  /** Digits and separators: all that the parameter collector is given. */
  predicate ParamText(t: seq<Byte>) {
    forall i :: 0 <= i < |t| ==> IsDigit(t[i]) || t[i] == SEMICOLON
  }

  // ----- strsep

  /** Where the first field ends. */
  function FieldEnd(t: seq<Byte>): (n: nat)
    ensures n <= |t| && SEMICOLON !in t[..n] && (n < |t| ==> t[n] == SEMICOLON)
  {
    if t == [] || t[0] == SEMICOLON then 0 else
      var n := FieldEnd(t[1..]) + 1;
      assert t[..n] == [t[0]] + t[1..][..n - 1];
      n
  }

  /** The fields between separators. */
  function Fields(t: seq<Byte>): (r: seq<seq<Byte>>)
    ensures r != []
    decreases |t|
  {
    var n := FieldEnd(t);
    if n == |t| then [t] else [t[..n]] + Fields(t[n + 1..])
  }

  function JoinFields(fs: seq<seq<Byte>>): seq<Byte>
    requires fs != []
  {
    if |fs| == 1 then fs[0] else fs[0] + [SEMICOLON] + JoinFields(fs[1..])
  }

  /** The fields hold no separator and make up the text. */
  lemma {:induction false} FieldsAreFields(t: seq<Byte>)
    ensures JoinFields(Fields(t)) == t
    ensures forall i :: 0 <= i < |Fields(t)| ==> SEMICOLON !in Fields(t)[i]
    ensures ParamText(t) ==> forall i :: 0 <= i < |Fields(t)| ==> AllDigits(Fields(t)[i])
    decreases |t|
  {
    var n := FieldEnd(t);
    if n == |t| {
      assert t[..n] == t;
    } else {
      FieldsAreFields(t[n + 1..]);
      assert t == t[..n] + [SEMICOLON] + t[n + 1..];
      assert Fields(t)[1..] == Fields(t[n + 1..]);
      assert ParamText(t) ==> ParamText(t[n + 1..]);
    }
  }

  /** Only one list of fields gives a text. */
  lemma {:induction false} FieldsUnique(fs: seq<seq<Byte>>)
    requires fs != [] && forall i :: 0 <= i < |fs| ==> SEMICOLON !in fs[i]
    ensures Fields(JoinFields(fs)) == fs
  {
    var t := JoinFields(fs);
    if |fs| == 1 {
      FieldEndAt(t, |t|);
    } else {
      FieldsUnique(fs[1..]);
      FieldEndAt(t, |fs[0]|);
      assert t[..|fs[0]|] == fs[0] && t[|fs[0]| + 1..] == JoinFields(fs[1..]);
    }
  }

  lemma {:induction false} FieldEndAt(t: seq<Byte>, n: nat)
    requires n <= |t| && SEMICOLON !in t[..n] && (n < |t| ==> t[n] == SEMICOLON)
    ensures FieldEnd(t) == n
  {
    if n > 0 {
      assert t[0] in t[..n];
      assert t[1..][..n - 1] == t[..n][1..];
      FieldEndAt(t[1..], n - 1);
    }
  }

  // ----- strtonum(field, 0, INT_MAX)

  /** An empty field is -1; None is a number that is too large. */
  function Number(f: seq<Byte>): Option<int>
    requires AllDigits(f)
  {
    if f == [] then Some(-1)
    else if Value(f) > INT_MAX then None
    else Some(Value(f))
  }

  function Numbers(fs: seq<seq<Byte>>): (r: Option<seq<int>>)
    requires forall i :: 0 <= i < |fs| ==> AllDigits(fs[i])
    ensures r.Some? ==> |r.value| == |fs|
  {
    if fs == [] then Some([])
    else match (Number(fs[0]), Numbers(fs[1..]))
      case (Some(n), Some(ns)) => Some([n] + ns)
      case _ => None
  }

  /** The fields of `rest` as numbers when `had` are in the list already; None
      if one is too large or the list would be filled. */
  function Rest(had: nat, rest: seq<Byte>): Option<seq<int>>
    requires ParamText(rest)
  {
    FieldsAreFields(rest);
    if had + |Fields(rest)| >= PARAM_LIST_SIZE then None else Numbers(Fields(rest))
  }

  function SplitParams(t: seq<Byte>): Option<seq<int>>
    requires ParamText(t)
  {
    if t == [] then Some([]) else Rest(0, t)
  }

  /** One turn of the loop. */
  lemma {:induction false} RestStep(had: nat, rest: seq<Byte>)
    requires ParamText(rest) && had < PARAM_LIST_SIZE
    ensures var n := FieldEnd(rest);
            && AllDigits(rest[..n])
            && (Number(rest[..n]) == None || had + 1 == PARAM_LIST_SIZE ==> Rest(had, rest) == None)
            && (Number(rest[..n]).Some? && had + 1 < PARAM_LIST_SIZE ==>
                  if n == |rest| then Rest(had, rest) == Some([Number(rest[..n]).value])
                  else ParamText(rest[n + 1..])
                       && Rest(had, rest) == match Rest(had + 1, rest[n + 1..])
                                             case None => None
                                             case Some(ns) => Some([Number(rest[..n]).value] + ns))
  {
    hide FieldEnd, Fields, JoinFields, Numbers, Number;
    var n := FieldEnd(rest);
    FieldsAreFields(rest);
    FieldsFirst(rest);
    NumbersFirst(Fields(rest));
    if n < |rest| { FieldsAreFields(rest[n + 1..]); }
  }

  lemma {:induction false} FieldsFirst(t: seq<Byte>)
    ensures var n := FieldEnd(t);
            Fields(t)[0] == t[..n] && Fields(t)[1..] == if n == |t| then [] else Fields(t[n + 1..])
  {
    hide FieldEnd;
    var n := FieldEnd(t);
    if n == |t| {
      assert t[..n] == t;
    } else {
      FirstAndRest(t[..n], Fields(t[n + 1..]));
    }
  }

  lemma FirstAndRest(f: seq<Byte>, fs: seq<seq<Byte>>)
    ensures ([f] + fs)[0] == f && ([f] + fs)[1..] == fs
  {}

  lemma NumbersFirst(fs: seq<seq<Byte>>)
    requires fs != [] && forall i :: 0 <= i < |fs| ==> AllDigits(fs[i])
    ensures Number(fs[0]) == None ==> Numbers(fs) == None
    ensures Number(fs[0]).Some? ==>
              Numbers(fs) == match Numbers(fs[1..]) case None => None case Some(ns) => Some([Number(fs[0]).value] + ns)
    ensures Number(fs[0]).Some? && |fs| == 1 ==> Numbers(fs) == Some([Number(fs[0]).value])
  {
    if |fs| == 1 && Number(fs[0]).Some? {
      assert fs[1..] == [] && Numbers(fs[1..]) == Some([]);
      assert [Number(fs[0]).value] + [] == [Number(fs[0]).value];
    }
  }

  /** The whole list when `had` is collected and `rest` is still to be split. */
  function Resumed(had: seq<int>, rest: seq<Byte>): Option<seq<int>>
    requires ParamText(rest)
  {
    match Rest(|had|, rest)
    case None => None
    case Some(ns) => Some(had + ns)
  }

  lemma {:induction false} ResumedStart(t: seq<Byte>)
    requires ParamText(t) && t != []
    ensures Resumed([], t) == SplitParams(t)
  {
    assert forall ns: seq<int> :: [] + ns == ns;
  }

  lemma {:induction false} ResumedStep(had: seq<int>, rest: seq<Byte>)
    requires ParamText(rest) && |had| < PARAM_LIST_SIZE
    ensures var n := FieldEnd(rest);
            && AllDigits(rest[..n])
            && (Number(rest[..n]) == None || |had| + 1 == PARAM_LIST_SIZE ==> Resumed(had, rest) == None)
            && (Number(rest[..n]).Some? && |had| + 1 < PARAM_LIST_SIZE ==>
                  var next := had + [Number(rest[..n]).value];
                  if n == |rest| then Resumed(had, rest) == Some(next)
                  else ParamText(rest[n + 1..]) && Resumed(had, rest) == Resumed(next, rest[n + 1..]))
  {
    hide Rest, FieldEnd, Number;
    RestStep(|had|, rest);
    var n := FieldEnd(rest);
    if Number(rest[..n]).Some? && n < |rest| && |had| + 1 < PARAM_LIST_SIZE {
      var x := Number(rest[..n]).value;
      match Rest(|had| + 1, rest[n + 1..])
      case None =>
      case Some(ns) => assert had + ([x] + ns) == had + [x] + ns;
    }
  }

  // ----- What strsep leaves of the buffer

  /** The text once it has been split, with `had` numbers in the list already:
      the separator after each field taken is NUL, also after the one the split
      fails at, and what comes after that one is as it was. */
  function Left(had: nat, rest: seq<Byte>): (r: seq<Byte>)
    requires ParamText(rest)
    ensures |r| == |rest|
    decreases |rest|
  {
    var n := FieldEnd(rest);
    if n == |rest| then rest
    else
      FieldDigits(rest);
      rest[..n] + [0] + if Number(rest[..n]).None? || had + 1 >= PARAM_LIST_SIZE then rest[n + 1..]
                        else Left(had + 1, rest[n + 1..])
  }

  function SplitLeft(t: seq<Byte>): (r: seq<Byte>)
    requires ParamText(t)
    ensures |r| == |t|
  {
    Left(0, t)
  }

  lemma FieldDigits(t: seq<Byte>)
    requires ParamText(t)
    ensures AllDigits(t[..FieldEnd(t)]) && (FieldEnd(t) < |t| ==> ParamText(t[FieldEnd(t) + 1..]))
  {}

  /** One turn of the loop. */
  lemma LeftStep(had: nat, rest: seq<Byte>)
    requires ParamText(rest)
    ensures var n := FieldEnd(rest);
            && AllDigits(rest[..n])
            && (n == |rest| ==> Left(had, rest) == rest)
            && (n < |rest| ==>
                  && ParamText(rest[n + 1..]) && rest[n] == SEMICOLON
                  && Left(had, rest) == rest[..n] + [0]
                     + if Number(rest[..n]).None? || had + 1 >= PARAM_LIST_SIZE then rest[n + 1..]
                       else Left(had + 1, rest[n + 1..]))
  {
    hide FieldEnd, Number;
    FieldDigits(rest);
  }

  /** The split gets as far as the separator after these fields: all but the
      last of them are numbers, and they do not overfill the list. */
  predicate Reached(had: nat, before: seq<Byte>)
    requires ParamText(before)
  {
    FieldsAreFields(before);
    var fs := Fields(before);
    had + |fs| <= PARAM_LIST_SIZE && forall j :: 0 <= j < |fs| - 1 ==> Number(fs[j]).Some?
  }

  lemma ReachedFirst(had: nat, before: seq<Byte>)
    requires ParamText(before) && FieldEnd(before) == |before| && had < PARAM_LIST_SIZE
    ensures Reached(had, before)
  {
    FieldsFirst(before);
  }

  lemma ReachedNext(had: nat, before: seq<Byte>)
    requires ParamText(before) && FieldEnd(before) < |before|
    ensures var n := FieldEnd(before);
            && AllDigits(before[..n]) && ParamText(before[n + 1..])
            && (Reached(had, before) <==> Number(before[..n]).Some? && Reached(had + 1, before[n + 1..]))
  {
    hide FieldEnd, Fields, Number, JoinFields;
    var n := FieldEnd(before);
    FieldDigits(before);
    FieldsFirst(before);
    FieldsAreFields(before);
    FieldsAreFields(before[n + 1..]);
    var fs, gs := Fields(before), Fields(before[n + 1..]);
    assert fs[1..] == gs;
    assert forall j :: 0 <= j < |gs| ==> gs[j] == fs[j + 1];
    assert forall j :: 1 <= j < |fs| ==> fs[j] == gs[j - 1];
  }

  /** Byte by byte: NUL for each separator the split reaches, the byte that was
      collected anywhere else. */
  lemma {:induction false} LeftAt(had: nat, rest: seq<Byte>, i: nat)
    requires ParamText(rest) && had < PARAM_LIST_SIZE && i < |rest|
    ensures ParamText(rest[..i])
    ensures Left(had, rest)[i] == if rest[i] == SEMICOLON && Reached(had, rest[..i]) then 0 else rest[i]
    decreases |rest|
  {
    hide Number, Reached, Fields, Left, FieldEnd;
    var n := FieldEnd(rest);
    LeftStep(had, rest);
    if i <= n {
      InField(rest, i);
      ReachedFirst(had, rest[..i]);
    } else {
      var more := rest[n + 1..];
      assert rest[..i][..n] == rest[..n] && rest[..i][n + 1..] == more[..i - n - 1];
      FieldEndAt(rest[..i], n);
      ReachedNext(had, rest[..i]);
      if had + 1 < PARAM_LIST_SIZE {
        LeftAt(had + 1, more, i - n - 1);
      } else {
        ReachedFull(had + 1, rest[..i][n + 1..]);
      }
    }
  }

  lemma InField(rest: seq<Byte>, i: nat)
    requires i <= FieldEnd(rest)
    ensures FieldEnd(rest[..i]) == i && (i < FieldEnd(rest) ==> rest[i] != SEMICOLON)
  {
    hide FieldEnd;
    var n := FieldEnd(rest);
    assert rest[..i] == rest[..n][..i];
    assert i < n ==> rest[i] == rest[..n][i];
    FieldEndAt(rest[..i], i);
  }

  lemma ReachedFull(had: nat, before: seq<Byte>)
    requires ParamText(before) && had >= PARAM_LIST_SIZE
    ensures !Reached(had, before)
  {}

  /** A split that succeeds leaves no separator. */
  lemma {:induction false} LeftAll(had: nat, rest: seq<Byte>)
    requires ParamText(rest) && had < PARAM_LIST_SIZE && Rest(had, rest).Some?
    ensures forall i :: 0 <= i < |rest| ==> Left(had, rest)[i] == if rest[i] == SEMICOLON then 0 else rest[i]
    decreases |rest|
  {
    hide Number, Rest, Fields, Left, FieldEnd;
    var n := FieldEnd(rest);
    RestStep(had, rest);
    LeftStep(had, rest);
    assert forall i :: 0 <= i < n ==> rest[i] == rest[..n][i];
    if n < |rest| {
      LeftAll(had + 1, rest[n + 1..]);
      assert forall i :: n < i < |rest| ==> rest[i] == rest[n + 1..][i - n - 1];
    }
  }

  /** What a dispatch leaves of its parameters. */
  lemma SplitLeaves(t: seq<Byte>)
    requires ParamText(t)
    ensures forall i :: 0 <= i < |t| ==> ParamText(t[..i])
    ensures forall i :: 0 <= i < |t| ==>
              SplitLeft(t)[i] == if t[i] == SEMICOLON && Reached(0, t[..i]) then 0 else t[i]
    ensures SplitParams(t).Some? ==>
              forall i :: 0 <= i < |t| ==> SplitLeft(t)[i] == if t[i] == SEMICOLON then 0 else t[i]
  {
    hide Reached, Left, Rest;
    forall i | 0 <= i < |t|
      ensures ParamText(t[..i])
      ensures SplitLeft(t)[i] == if t[i] == SEMICOLON && Reached(0, t[..i]) then 0 else t[i]
    {
      LeftAt(0, t, i);
    }
    if t != [] && SplitParams(t).Some? { LeftAll(0, t); }
  }

  // ----- Lists that come back

  /** -1 stands for a field left empty. */
  function FieldText(n: int): seq<Byte>
    requires n >= -1
  {
    if n == -1 then [] else Decimal(n)
  }

  function FieldTexts(ns: seq<int>): (r: seq<seq<Byte>>)
    requires forall i :: 0 <= i < |ns| ==> ns[i] >= -1
    ensures |r| == |ns| && forall i :: 0 <= i < |ns| ==> r[i] == FieldText(ns[i]) && AllDigits(r[i])
  {
    seq(|ns|, i requires 0 <= i < |ns| => FieldText(ns[i]))
  }

  function ParamsText(ns: seq<int>): seq<Byte>
    requires forall i :: 0 <= i < |ns| ==> ns[i] >= -1
  {
    if ns == [] then [] else JoinFields(FieldTexts(ns))
  }

  lemma {:induction false} TextsNumbers(ns: seq<int>)
    requires forall i :: 0 <= i < |ns| ==> -1 <= ns[i] <= INT_MAX
    ensures Numbers(FieldTexts(ns)) == Some(ns)
  {
    if ns != [] {
      TextsNumbers(ns[1..]);
      assert FieldTexts(ns)[1..] == FieldTexts(ns[1..]);
      if ns[0] >= 0 { DecimalValue(ns[0]); }
      assert ns == [ns[0]] + ns[1..];
    }
  }

  lemma {:induction false} JoinedText(fs: seq<seq<Byte>>)
    requires fs != [] && forall i :: 0 <= i < |fs| ==> AllDigits(fs[i])
    ensures ParamText(JoinFields(fs))
  {
    if |fs| > 1 { JoinedText(fs[1..]); }
  }

  /** Any list of up to 23 numbers and empty fields comes back from its text; a
      longer one is refused. (A list of one empty field has no text.) */
  lemma SplitBack(ns: seq<int>)
    requires ns != [-1] && forall i :: 0 <= i < |ns| ==> -1 <= ns[i] <= INT_MAX
    ensures ParamText(ParamsText(ns))
    ensures SplitParams(ParamsText(ns)) == if |ns| < PARAM_LIST_SIZE then Some(ns) else None
  {
    if ns != [] {
      var fs := FieldTexts(ns);
      JoinedText(fs);
      FieldsUnique(fs);
      TextsNumbers(ns);
      if |ns| > 1 { assert SEMICOLON in JoinFields(fs); }
    }
  }
}
