/** Decimal numerals, as fmt's %d writes them. */
module Decimals {
  import opened Collections

  predicate IsDigit(c: char) { '0' <= c <= '9' }

  function DigitOf(n: nat): (c: char)
    requires n < 10
    ensures IsDigit(c) && c == "0123456789"[n]
  {
    '0' + n as char
  }

  function ValueOf(c: char): (n: nat)
    requires IsDigit(c)
    ensures n < 10 && c == "0123456789"[n]
  {
    c as int - '0' as int
  }

  function Numeral(n: nat): string {
    if n < 10 then [DigitOf(n)] else Numeral(n / 10) + [DigitOf(n % 10)]
  }

  function SignedNumeral(n: int): string { if n < 0 then "-" + Numeral(-n) else Numeral(n) }

  lemma {:induction false} NumeralDigits(n: nat)
    ensures Numeral(n) != [] && forall i :: 0 <= i < |Numeral(n)| ==> IsDigit(Numeral(n)[i])
  {
    if n >= 10 { NumeralDigits(n / 10); }
  }

  lemma {:induction false} NumeralInjective(m: nat, n: nat)
    requires Numeral(m) == Numeral(n)
    ensures m == n
  {
    var (s, t) := (Numeral(m), Numeral(n));
    assert s[|s| - 1] == t[|t| - 1] && s[..|s| - 1] == t[..|t| - 1];
    NumeralSplit(m);
    NumeralSplit(n);
    if m >= 10 { NumeralDigits(m / 10); }
    if n >= 10 { NumeralDigits(n / 10); }
    if m >= 10 && n >= 10 { NumeralInjective(m / 10, n / 10); }
  }

  // ---- What numerals denote -------------------------------------------------------------------------

  function Pow10(n: nat): (p: nat)
    ensures p > 0
  {
    if n == 0 then 1 else 10 * Pow10(n - 1)
  }

  predicate AllDigits(s: string) { forall i :: 0 <= i < |s| ==> IsDigit(s[i]) }

  /** The sum of the digits, each times the power of ten of its place. */
  function PlaceValue(s: string): nat
    requires AllDigits(s)
  {
    if s == [] then 0 else ValueOf(s[0]) * Pow10(|s| - 1) + PlaceValue(s[1..])
  }

  lemma {:induction false} PlaceValueSnoc(s: string, c: char)
    requires AllDigits(s) && IsDigit(c)
    ensures AllDigits(s + [c]) && PlaceValue(s + [c]) == 10 * PlaceValue(s) + ValueOf(c)
  {
    if s == [] {
      assert s + [c] == [c] && [c][1..] == [];
    } else {
      assert (s + [c])[1..] == s[1..] + [c];
      PlaceValueSnoc(s[1..], c);
      Shifted(ValueOf(s[0]), Pow10(|s| - 1));
    }
  }

  lemma Shifted(d: nat, p: nat)
    ensures d * (10 * p) == 10 * (d * p)
  {
  }

  /** The numeral of n denotes n, and only the numeral of 0 begins with a 0. */
  lemma {:induction false} NumeralValue(n: nat)
    ensures AllDigits(Numeral(n)) && PlaceValue(Numeral(n)) == n
    ensures n > 0 ==> Numeral(n) != [] && Numeral(n)[0] != '0'
  {
    NumeralDigits(n);
    if n < 10 {
      assert Numeral(n)[1..] == [];
    } else {
      NumeralValue(n / 10);
      PlaceValueSnoc(Numeral(n / 10), DigitOf(n % 10));
    }
  }

  /** Reading digits from left to right. */
  function Decimal(s: string): nat
    requires AllDigits(s)
  {
    if s == [] then 0 else 10 * Decimal(s[..|s| - 1]) + ValueOf(s[|s| - 1])
  }

  lemma {:induction false} DecimalIsPlaceValue(s: string)
    requires AllDigits(s)
    ensures Decimal(s) == PlaceValue(s)
  {
    if s != [] {
      var k := |s| - 1;
      DecimalIsPlaceValue(s[..k]);
      PlaceValueSnoc(s[..k], s[k]);
      assert s == s[..k] + [s[k]];
    }
  }

  function Zeros(n: nat): string {
    if n == 0 then "" else "0" + Zeros(n - 1)
  }

  lemma {:induction false} ZeroMore(n: nat)
    ensures Zeros(n) + "0" == Zeros(n + 1)
  {
    if n > 0 {
      ZeroMore(n - 1);
      assert "0" + Zeros(n - 1) + "0" == "0" + (Zeros(n - 1) + "0");
    } else {
      assert Zeros(1) == "0" + Zeros(0);
    }
  }

  lemma OneMoreDigit(c: char, s: string)
    requires IsDigit(c) && AllDigits(s)
    ensures AllDigits([c] + s) && PlaceValue([c] + s) == ValueOf(c) * Pow10(|s|) + PlaceValue(s)
  {
    assert ([c] + s)[1..] == s;
  }

  /** Leading zeros do not matter. */
  lemma {:induction false} ZerosValue(z: nat, s: string)
    requires AllDigits(s)
    ensures AllDigits(Zeros(z) + s) && PlaceValue(Zeros(z) + s) == PlaceValue(s)
  {
    if z == 0 {
      assert Zeros(0) + s == s;
    } else {
      ZerosValue(z - 1, s);
      assert Zeros(z) + s == ['0'] + (Zeros(z - 1) + s);
      OneMoreDigit('0', Zeros(z - 1) + s);
    }
  }

  /** Digits are a numeral with zeros in front. */
  lemma {:induction false} DigitsAreNumeral(s: string) returns (z: nat)
    requires s != [] && AllDigits(s)
    ensures s == Zeros(z) + Numeral(Decimal(s))
  {
    var k := |s| - 1;
    var (front, d) := (s[..k], ValueOf(s[k]));
    assert s == front + [DigitOf(d)];
    z := 0;
    if front != [] {
      z := DigitsAreNumeral(front);
      OneDigitMore(z, Decimal(front), d);
      if Decimal(front) == 0 { z := z + 1; }
    }
  }

  lemma OneDigitMore(z: nat, n: nat, d: nat)
    requires d < 10
    ensures Zeros(z) + Numeral(n) + [DigitOf(d)] == Zeros(if n == 0 then z + 1 else z) + Numeral(10 * n + d)
  {
    if n == 0 {
      ZeroMore(z);
    } else {
      assert Numeral(10 * n + d) == Numeral(n) + [DigitOf(d)];
      Associative(Zeros(z), Numeral(n), [DigitOf(d)]);
    }
  }

  lemma NumeralSplit(n: nat)
    ensures var s := Numeral(n); s != [] && s[|s| - 1] == DigitOf(n % 10) && s[..|s| - 1] == if n < 10 then [] else Numeral(n / 10)
  {
  }

  lemma SignedInjective(m: int, n: int)
    requires SignedNumeral(m) == SignedNumeral(n)
    ensures m == n
  {
    NumeralDigits(if m < 0 then -m else m);
    NumeralDigits(if n < 0 then -n else n);
    assert (m < 0) == (SignedNumeral(m)[0] == '-') && (n < 0) == (SignedNumeral(n)[0] == '-');
    if m < 0 {
      assert SignedNumeral(m)[1..] == Numeral(-m) && SignedNumeral(n)[1..] == Numeral(-n);
      NumeralInjective(-m, -n);
    } else {
      NumeralInjective(m, n);
    }
  }

  lemma SignedChars(n: int, c: char)
    requires !IsDigit(c) && c != '-'
    ensures c !in SignedNumeral(n)
  {
    NumeralDigits(if n < 0 then -n else n);
  }
}
