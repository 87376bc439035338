// Small helpers shared by the models: an option type, bytes, and sums and
// minima of integer sequences.
module Common {

  datatype Option<+T> = None | Some(value: T)

  type Byte = b: int | 0 <= b < 256

  function Min(a: int, b: int): int {
    if a <= b then a else b
  }

  function Max(a: int, b: int): int {
    if a <= b then b else a
  }

  function Abs(a: int): nat {
    if a < 0 then -a else a
  }

  function Sum(s: seq<int>): int {
    if s == [] then 0 else s[0] + Sum(s[1..])
  }

  lemma {:induction false} SumUpdate(s: seq<int>, i: nat, v: int)
    requires i < |s|
    ensures Sum(s[i := v]) == Sum(s) - s[i] + v
  {
    if i == 0 {
      assert s[i := v][1..] == s[1..];
    } else {
      assert s[i := v][1..] == s[1..][i - 1 := v];
      SumUpdate(s[1..], i - 1, v);
    }
  }

  lemma {:induction false} SumConcat(a: seq<int>, b: seq<int>)
    ensures Sum(a + b) == Sum(a) + Sum(b)
  {
    if a == [] {
      assert a + b == b;
    } else {
      assert (a + b)[1..] == a[1..] + b;
      SumConcat(a[1..], b);
    }
  }

  lemma SumPair(a: int, b: int)
    ensures Sum([a, b]) == a + b
  {
    assert [a, b][1..] == [b];
    assert Sum([b]) == b;
  }

  /** Splits a sum at one element. */
  lemma SumAt(s: seq<int>, i: nat)
    requires i < |s|
    ensures Sum(s) == Sum(s[..i]) + s[i] + Sum(s[i + 1..])
  {
    assert s == s[..i] + s[i..];
    SumConcat(s[..i], s[i..]);
  }

  lemma SumLast(s: seq<int>, i: nat)
    requires i < |s|
    ensures Sum(s[..i + 1]) == Sum(s[..i]) + s[i]
  {
    assert s[..i + 1] == s[..i] + [s[i]];
    SumConcat(s[..i], [s[i]]);
  }

  lemma {:induction false} SumNonNegative(s: seq<int>)
    requires forall i :: 0 <= i < |s| ==> s[i] >= 0
    ensures Sum(s) >= 0
    ensures forall i :: 0 <= i < |s| ==> s[i] <= Sum(s)
  {
    if s != [] {
      SumNonNegative(s[1..]);
      forall i | 0 <= i < |s| ensures s[i] <= Sum(s) {
        if i > 0 { assert s[i] == s[1..][i - 1]; }
      }
    }
  }

  /** The value a running-minimum loop returns; `empty` stands for no element. */
  function Least(s: seq<int>, empty: int): int {
    if s == [] then empty
    else if |s| == 1 then s[0]
    else Min(s[0], Least(s[1..], empty))
  }

  lemma {:induction false} LeastIsMinimum(s: seq<int>, empty: int)
    ensures s != [] ==> Least(s, empty) in s
    ensures forall i :: 0 <= i < |s| ==> Least(s, empty) <= s[i]
  {
    if |s| > 1 {
      LeastIsMinimum(s[1..], empty);
      forall i | 0 <= i < |s| ensures Least(s, empty) <= s[i] {
        if i > 0 { assert s[i] == s[1..][i - 1]; }
      }
    }
  }

  lemma {:induction false} LeastLast(s: seq<int>, i: nat, empty: int)
    requires i < |s|
    ensures Least(s[..i + 1], empty) == if i == 0 then s[0] else Min(Least(s[..i], empty), s[i])
  {
    if i > 0 {
      assert s[..i + 1][1..] == s[1..][..i] && s[..i][1..] == s[1..][..i - 1];
      LeastLast(s[1..], i - 1, empty);
    }
  }

  lemma LeastShift(s: seq<int>, t: seq<int>, empty: int, c: int)
    requires s != [] && |s| == |t|
    requires forall i :: 0 <= i < |s| ==> t[i] == s[i] + c
    ensures Least(t, empty) == Least(s, empty) + c
  {
    LeastIsMinimum(s, empty);
    LeastIsMinimum(t, empty);
    var i :| 0 <= i < |s| && s[i] == Least(s, empty);
    var j :| 0 <= j < |t| && t[j] == Least(t, empty);
    assert t[i] == s[i] + c && t[j] == s[j] + c;
  }

  lemma Concat<T>(a: seq<T>, b: seq<T>, c: seq<T>)
    ensures a + b + c == a + (b + c)
  {}
}
