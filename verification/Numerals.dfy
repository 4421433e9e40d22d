/** Positional numerals, most significant digit first. */
module Numerals {

  predicate Digits(base: nat, s: seq<nat>) {
    forall i :: 0 <= i < |s| ==> s[i] < base
  }

  function Value(base: nat, s: seq<nat>): nat {
    if s == [] then 0 else Value(base, s[..|s| - 1]) * base + s[|s| - 1]
  }

  lemma Quotient(base: nat, n: nat)
    requires 2 <= base
    ensures n == (n / base) * base + n % base
    ensures 0 < n ==> n / base < n
  {
    var q := n / base;
    assert n == base * q + n % base;
    assert 2 * q <= base * q;
  }

  /** The shortest numeral of `n`; zero has no digits. */
  function Numeral(base: nat, n: nat): (s: seq<nat>)
    requires 2 <= base
    ensures Digits(base, s) && (s != [] ==> s[0] != 0) && (n != 0 ==> s != [])
  {
    if n == 0 then []
    else
      Quotient(base, n);
      Numeral(base, n / base) + [n % base]
  }

  lemma {:induction false} ValueOfNumeral(base: nat, n: nat)
    requires 2 <= base
    ensures Value(base, Numeral(base, n)) == n
  {
    if n != 0 {
      Quotient(base, n);
      ValueOfNumeral(base, n / base);
      assert Numeral(base, n)[..|Numeral(base, n)| - 1] == Numeral(base, n / base);
    }
  }

  function LeadingZeros(s: seq<nat>): (k: nat)
    ensures k <= |s| && (forall i :: 0 <= i < k ==> s[i] == 0) && (k < |s| ==> s[k] != 0)
  {
    if s != [] && s[0] == 0 then 1 + LeadingZeros(s[1..]) else 0
  }

  function Zeros(k: nat): (s: seq<nat>)
    ensures |s| == k && forall i :: 0 <= i < k ==> s[i] == 0
  {
    seq(k, i => 0)
  }

  lemma {:induction false} ValueOfPadded(base: nat, k: nat, s: seq<nat>)
    ensures Value(base, Zeros(k) + s) == Value(base, s)
  {
    var t := Zeros(k) + s;
    if s != [] {
      assert t[..|t| - 1] == Zeros(k) + s[..|s| - 1];
      ValueOfPadded(base, k, s[..|s| - 1]);
    } else if k != 0 {
      assert t[..|t| - 1] == Zeros(k - 1) + s;
      ValueOfPadded(base, k - 1, s);
    } else {
      assert t == s;
    }
  }

  /** A numeral without leading zeros is determined by its value. */
  lemma {:induction false} NumeralOfValue(base: nat, s: seq<nat>)
    requires 2 <= base && Digits(base, s) && (s != [] ==> s[0] != 0)
    ensures Numeral(base, Value(base, s)) == s
  {
    if s != [] {
      var n := |s| - 1;
      var high := Value(base, s[..n]);
      NumeralOfValue(base, s[..n]);
      DivMod(base, high, s[n]);
      if n == 0 {
        assert s[..n] == [] && high == 0;
      } else {
        assert high != 0;
        Positive(base, high, s[n]);
      }
      assert s[..n] + [s[n]] == s;
    }
  }

  lemma DivMod(base: nat, q: nat, r: nat)
    requires r < base
    ensures (q * base + r) / base == q && (q * base + r) % base == r
  {
    var n := q * base + r;
    assert n == base * (n / base) + n % base;
    MultipleBelow(base, q - n / base);
  }

  lemma MultipleBelow(base: nat, d: int)
    ensures 1 <= d ==> base <= base * d
    ensures d <= -1 ==> base * d <= 0 - base
  {
  }

  lemma Positive(base: nat, q: nat, r: nat)
    requires 0 < base && 0 < q
    ensures 0 < q * base + r
  {
  }

  /** The change of base that keeps leading zeros as leading zeros. */
  function Convert(from: nat, to: nat, s: seq<nat>): (t: seq<nat>)
    requires 2 <= to
    ensures Digits(to, t)
  {
    Zeros(LeadingZeros(s)) + Numeral(to, Value(from, s))
  }

  lemma {:induction false} LeadingZerosOfPadded(k: nat, s: seq<nat>)
    requires s != [] ==> s[0] != 0
    ensures LeadingZeros(Zeros(k) + s) == k
  {
    var t := Zeros(k) + s;
    assert LeadingZeros(t) <= |t|;
    assert k < |t| ==> t[k] != 0;
  }

  /** Converting there and back gives the same digits, so conversion is a bijection. */
  lemma ConvertBack(from: nat, to: nat, s: seq<nat>)
    requires 2 <= from && 2 <= to && Digits(from, s)
    ensures Convert(to, from, Convert(from, to, s)) == s
  {
    var k := LeadingZeros(s);
    var tail := s[k..];
    assert s == Zeros(k) + tail;
    ValueOfPadded(from, k, tail);
    NumeralOfValue(from, tail);
    var n := Value(from, tail);
    ValueOfNumeral(to, n);
    ValueOfPadded(to, k, Numeral(to, n));
    LeadingZerosOfPadded(k, Numeral(to, n));
  }
}
