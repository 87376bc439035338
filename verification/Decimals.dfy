// Decimal numbers as text: what %u prints, and what reading digits gives.
module Decimals {
  import opened Common

  predicate IsDigit(b: Byte) {
    0x30 <= b <= 0x39
  }

  predicate AllDigits(t: seq<Byte>) {
    forall i :: 0 <= i < |t| ==> IsDigit(t[i])
  }

  function Value(t: seq<Byte>): (n: int)
    requires AllDigits(t)
    ensures n >= 0
  {
    if t == [] then 0 else Value(t[..|t| - 1]) * 10 + (t[|t| - 1] - 0x30)
  }

  function Decimal(n: nat): (t: seq<Byte>)
    ensures t != [] && AllDigits(t)
  {
    if n < 10 then [n + 0x30] else Decimal(n / 10) + [n % 10 + 0x30]
  }

  lemma {:induction false} DecimalValue(n: nat)
    ensures Value(Decimal(n)) == n
  {
    if n < 10 {
      assert Value([]) == 0 && [n + 0x30 as Byte][..0] == [];
    } else {
      DecimalValue(n / 10);
      assert Decimal(n)[..|Decimal(n)| - 1] == Decimal(n / 10);
    }
  }

  /** Digits at the start of a text. */
  function Leading(t: seq<Byte>): (n: nat)
    ensures n <= |t| && AllDigits(t[..n]) && (n < |t| ==> !IsDigit(t[n]))
  {
    if t == [] || !IsDigit(t[0]) then 0
    else
      var n := Leading(t[1..]) + 1;
      assert t[..n] == [t[0]] + t[1..][..n - 1];
      n
  }

  lemma {:induction false} LeadingIs(t: seq<Byte>, n: nat)
    requires n <= |t| && AllDigits(t[..n]) && (n < |t| ==> !IsDigit(t[n]))
    ensures Leading(t) == n
  {
    if n > 0 {
      assert t[0] == t[..n][0];
      assert t[1..][..n - 1] == t[..n][1..];
      LeadingIs(t[1..], n - 1);
    }
  }

  lemma {:induction false} LeadingAtLeast(t: seq<Byte>, n: nat)
    requires n <= |t| && AllDigits(t[..n])
    ensures Leading(t) >= n
  {
    if n > 0 {
      assert t[0] == t[..n][0];
      assert t[1..][..n - 1] == t[..n][1..];
      LeadingAtLeast(t[1..], n - 1);
    }
  }

  /** A printed number reads back, whatever follows that is not a digit. */
  lemma DecimalReads(n: nat, rest: seq<Byte>)
    requires rest == [] || !IsDigit(rest[0])
    ensures var t, k := Decimal(n) + rest, |Decimal(n)|;
            Leading(t) == k && t[..k] == Decimal(n) && t[k..] == rest && Value(t[..k]) == n
  {
    var t, k := Decimal(n) + rest, |Decimal(n)|;
    assert t[..k] == Decimal(n) && t[k..] == rest;
    LeadingIs(t, k);
    DecimalValue(n);
  }
}
