/** Times in index keys, written so that byte order is newest first: pkg/index/reversetime.go. */
module ReverseTimes {
  import opened Options
  import opened ByteOrder
  import opened Decimals

  /** One byte of appendReverseString. */
  function RevChar(c: char): char { if IsDigit(c) then '0' + ('9' - c) else c }

  function Rev(s: string): (r: string)
    ensures |r| == |s| && forall i :: 0 <= i < |s| ==> r[i] == RevChar(s[i])
  {
    seq(|s|, i requires 0 <= i < |s| => RevChar(s[i]))
  }

  /** appendReverseString. */
  method AppendReverse(b: string, s: string) returns (out: string)
    ensures out == b + Rev(s)
  {
    out := b;
    for i := 0 to |s|
      invariant out == b + Rev(s[..i])
    {
      var c := s[i];
      assert Rev(s[..i + 1]) == Rev(s[..i]) + [RevChar(c)];
      if c >= '0' && c <= '9' {
        out := out + ['0' + ('9' - c)];
      } else {
        out := out + [c];
      }
    }
    assert s[..|s|] == s;
  }

  /** reverseTimeString. */
  function ReverseTime(s: string): string { "rt" + Rev(s) }

  /** unreverseTimeString; None when it panics. */
  function UnreverseTime(s: string): Option<string> {
    if "rt" <= s then Some(Rev(s[2..])) else None
  }

  lemma RevTwice(s: string)
    ensures Rev(Rev(s)) == s
  {
  }

  /** Reversing and unreversing undo each other. */
  lemma RoundTrip(s: string)
    ensures UnreverseTime(ReverseTime(s)) == Some(s)
    ensures UnreverseTime(s).Some? ==> ReverseTime(UnreverseTime(s).value) == s
  {
    RevTwice(s);
    assert ReverseTime(s)[2..] == Rev(s);
    if "rt" <= s {
      RevTwice(s[2..]);
      assert s == "rt" + s[2..];
    }
  }

  lemma RevConcat(a: string, b: string)
    ensures Rev(a + b) == Rev(a) + Rev(b)
  {
  }

  // ---- Times of one shape ---------------------------------------------------------------------------

  /** Digits at the same places, and the same bytes elsewhere. */
  predicate SameShape(s: string, t: string) {
    |s| == |t| && forall i :: 0 <= i < |s| ==> s[i] == t[i] || (IsDigit(s[i]) && IsDigit(t[i]))
  }

  lemma {:induction false} SameShapeOrder(s: string, t: string)
    requires SameShape(s, t)
    ensures Lt(Rev(t), Rev(s)) <==> Lt(s, t)
  {
    if s != [] {
      assert Rev(s)[1..] == Rev(s[1..]) && Rev(t)[1..] == Rev(t[1..]);
      SameShapeOrder(s[1..], t[1..]);
    }
  }

  function DigitCount(s: string): nat {
    if s == [] then 0 else (if IsDigit(s[0]) then 1 else 0) + DigitCount(s[1..])
  }

  /** All the digits of a time read as one number: year first, seconds last. */
  function Number(s: string): nat {
    if s == [] then 0
    else if IsDigit(s[0]) then ValueOf(s[0]) * Pow10(DigitCount(s[1..])) + Number(s[1..])
    else Number(s[1..])
  }

  lemma Scaled(d: nat, n: nat, p: nat)
    requires d < 10 && n < p
    ensures d * p + n < 10 * p
  {
  }

  lemma {:induction false} NumberBound(s: string)
    ensures Number(s) < Pow10(DigitCount(s))
  {
    if s != [] {
      NumberBound(s[1..]);
      if IsDigit(s[0]) { Scaled(ValueOf(s[0]), Number(s[1..]), Pow10(DigitCount(s[1..]))); }
    }
  }

  lemma {:induction false} SameShapeCount(s: string, t: string)
    requires SameShape(s, t)
    ensures DigitCount(s) == DigitCount(t)
  {
    if s != [] { SameShapeCount(s[1..], t[1..]); }
  }

  lemma LeadingDigit(d: nat, m: nat, e: nat, n: nat, p: nat)
    requires m < p && n < p
    ensures d * p + m < e * p + n <==> d < e || (d == e && m < n)
  {
    if d < e {
      assert (d + 1) * p <= e * p;
    } else if e < d {
      assert (e + 1) * p <= d * p;
    }
  }

  /** Times of one shape are ordered by their digits. */
  lemma {:induction false} NumberOrder(s: string, t: string)
    requires SameShape(s, t)
    ensures Lt(s, t) <==> Number(s) < Number(t)
  {
    if s != [] {
      NumberOrder(s[1..], t[1..]);
      SameShapeCount(s[1..], t[1..]);
      if IsDigit(s[0]) {
        NumberBound(s[1..]);
        NumberBound(t[1..]);
        LeadingDigit(ValueOf(s[0]), Number(s[1..]), ValueOf(t[0]), Number(t[1..]), Pow10(DigitCount(s[1..])));
      }
    }
  }

  // ---- Times with fractions of a second -------------------------------------------------------------

  /** A fraction as RFC3339Nano writes it: digits, the last one not 0. */
  predicate IsFraction(f: string) { AllDigits(f) && (f != [] ==> f[|f| - 1] != '0') }

  function FractionValue(f: string): real
    requires AllDigits(f)
  {
    if f == [] then 0.0 else (ValueOf(f[0]) as real + FractionValue(f[1..])) / 10.0
  }

  lemma {:induction false} FractionBound(f: string)
    requires IsFraction(f)
    ensures 0.0 <= FractionValue(f) < 1.0 && (f != [] ==> FractionValue(f) > 0.0)
  {
    if f != [] {
      FractionBound(f[1..]);
      if f[1..] == [] { assert f[0] == f[|f| - 1]; }
    }
  }

  /** Trimmed fractions are ordered as strings. */
  lemma {:induction false} FractionOrder(f: string, g: string)
    requires IsFraction(f) && IsFraction(g)
    ensures Lt(f, g) <==> FractionValue(f) < FractionValue(g)
  {
    FractionBound(f);
    FractionBound(g);
    if f != [] && g != [] {
      FractionBound(f[1..]);
      FractionBound(g[1..]);
      FractionOrder(f[1..], g[1..]);
    }
  }

  /** A time.Time written by schema.RFC3339FromTime: date and time of day up to the second, the
      fraction of a second if there is one, and the zone. */
  datatype Stamp = Stamp(seconds: string, fraction: string, zone: string)

  function Tail(f: string, zone: string): string { (if f == [] then "" else "." + f) + zone }

  function Format(t: Stamp): string { t.seconds + Tail(t.fraction, t.zone) }

  /** Z, or an offset with its sign. */
  predicate IsZone(z: string) { z != [] && (z[0] == 'Z' || z[0] == '+' || z[0] == '-') }

  predicate WellFormed(t: Stamp) { IsFraction(t.fraction) && IsZone(t.zone) }

  /** Same zone and same form of the part up to the second. */
  predicate Comparable(s: Stamp, t: Stamp) {
    WellFormed(s) && WellFormed(t) && s.zone == t.zone && SameShape(s.seconds, t.seconds)
  }

  /** s is before t, by the numbers. */
  ghost predicate Before(s: Stamp, t: Stamp)
    requires Comparable(s, t)
  {
    Number(s.seconds) < Number(t.seconds) ||
    (Number(s.seconds) == Number(t.seconds) && FractionValue(s.fraction) < FractionValue(t.fraction))
  }

  /** The zones that sort after digits and the point, that is, Z. */
  predicate SortsHigh(z: string)
    requires IsZone(z)
  {
    z[0] == 'Z'
  }

  /** How reversed fractions compare when u and v, which follow them, start with the zone. */
  lemma {:induction false} FractionTails(f: string, g: string, u: string, v: string)
    requires AllDigits(f) && AllDigits(g) && f != g && IsZone(u) && IsZone(v) && u[0] == v[0]
    ensures Lt(Rev(g) + v, Rev(f) + u) <==> if f <= g then SortsHigh(u) else if g <= f then !SortsHigh(u) else Lt(f, g)
  {
    if f == [] {
      assert Rev(f) + u == u && (Rev(g) + v)[0] == RevChar(g[0]);
    } else if g == [] {
      assert Rev(g) + v == v && (Rev(f) + u)[0] == RevChar(f[0]);
    } else {
      RevStep(f, u);
      RevStep(g, v);
      SameStart(f, g);
      if f[0] == g[0] { FractionTails(f[1..], g[1..], u, v); }
    }
  }

  lemma RevStep(f: string, u: string)
    requires f != []
    ensures var r := Rev(f) + u; r != [] && r[0] == RevChar(f[0]) && r[1..] == Rev(f[1..]) + u
  {
    assert Rev(f)[1..] == Rev(f[1..]);
  }

  lemma SameStart(f: string, g: string)
    requires f != [] && g != []
    ensures f <= g <==> f[0] == g[0] && f[1..] <= g[1..]
    ensures g <= f <==> f[0] == g[0] && g[1..] <= f[1..]
    ensures f == g <==> f[0] == g[0] && f[1..] == g[1..]
  {
    assert f == [f[0]] + f[1..] && g == [g[0]] + g[1..];
  }

  lemma Tails(f: string, g: string, z: string, x: string, y: string)
    requires IsFraction(f) && IsFraction(g) && f != g && IsZone(z)
    ensures Lt(Rev(Tail(g, z)) + y, Rev(Tail(f, z)) + x) <==> if f <= g then SortsHigh(z) else if g <= f then !SortsHigh(z) else Lt(f, g)
  {
    if f == [] {
      assert (Rev(Tail(f, z)) + x)[0] == z[0] && (Rev(Tail(g, z)) + y)[0] == '.';
    } else if g == [] {
      assert (Rev(Tail(f, z)) + x)[0] == '.' && (Rev(Tail(g, z)) + y)[0] == z[0];
    } else {
      TailSplit(f, z, x);
      TailSplit(g, z, y);
      FractionTails(f, g, Rev(z) + x, Rev(z) + y);
      LtPrefix(".", Rev(g) + (Rev(z) + y), Rev(f) + (Rev(z) + x));
    }
  }

  lemma TailSplit(f: string, z: string, x: string)
    requires f != []
    ensures Rev(Tail(f, z)) + x == "." + (Rev(f) + (Rev(z) + x))
  {
  }

  lemma {:induction false} DecidedEarly(a: string, b: string, x: string, y: string)
    requires |a| == |b| && a != b
    ensures Lt(a + x, b + y) <==> Lt(a, b)
  {
    if a != [] {
      assert (a + x)[1..] == a[1..] + x && (b + y)[1..] == b[1..] + y;
      if a[0] == b[0] {
        assert a == [a[0]] + a[1..] && b == [b[0]] + b[1..];
        DecidedEarly(a[1..], b[1..], x, y);
      }
    }
  }

  lemma RevInjective(a: string, b: string)
    ensures Rev(a) == Rev(b) <==> a == b
  {
    RevTwice(a);
    RevTwice(b);
  }

  /** A fraction that continues another one stands for a later time. */
  lemma PrefixBefore(f: string, g: string)
    requires f <= g && f != g
    ensures Lt(f, g)
  {
    LtExtend(f, g[|f|..]);
    assert g == f + g[|f|..];
  }

  /** Reversed times, whatever follows them, sort newest first: always in UTC, and with a numeric
      offset unless the two times agree up to the end of the shorter one's fraction. */
  lemma NewestFirst(s: Stamp, t: Stamp, x: string, y: string)
    requires Comparable(s, t) && Before(s, t)
    ensures Lt(Rev(Format(t)) + y, Rev(Format(s)) + x) <==> SortsHigh(s.zone) || !(s.seconds == t.seconds && s.fraction <= t.fraction)
  {
    NumberOrder(s.seconds, t.seconds);
    NumberOrder(t.seconds, s.seconds);
    FractionOrder(s.fraction, t.fraction);
    LtTotal(s.seconds, t.seconds);
    Split(s, x);
    Split(t, y);
    if s.seconds == t.seconds {
      LtPrefix(Rev(s.seconds), Rev(Tail(t.fraction, t.zone)) + y, Rev(Tail(s.fraction, s.zone)) + x);
      assert s.fraction != t.fraction;
      Tails(s.fraction, t.fraction, s.zone, x, y);
      NotBack(s.fraction, t.fraction);
    } else {
      SameShapeOrder(s.seconds, t.seconds);
      RevInjective(s.seconds, t.seconds);
      DecidedEarly(Rev(t.seconds), Rev(s.seconds), Rev(Tail(t.fraction, t.zone)) + y, Rev(Tail(s.fraction, s.zone)) + x);
    }
  }

  lemma NotBack(f: string, g: string)
    requires Lt(f, g)
    ensures !(g <= f)
  {
    LtAsymmetric(f, g);
    if g <= f { PrefixBefore(g, f); }
  }

  lemma Split(t: Stamp, x: string)
    ensures Rev(Format(t)) + x == Rev(t.seconds) + (Rev(Tail(t.fraction, t.zone)) + x)
  {
    RevConcat(t.seconds, Tail(t.fraction, t.zone));
  }

  /** With the offset that stands for an unknown zone, half a second later sorts later. */
  lemma UnknownZoneOutOfOrder(seconds: string)
    ensures var (s, t) := (Stamp(seconds, "", "-00:01"), Stamp(seconds, "5", "-00:01"));
            Comparable(s, t) && Before(s, t) && Lt(Rev(Format(s)), Rev(Format(t)))
  {
    var (s, t) := (Stamp(seconds, "", "-00:01"), Stamp(seconds, "5", "-00:01"));
    FractionBound("5");
    assert Before(s, t);
    NewestFirst(s, t, "", "");
    assert Rev(Format(s)) + "" == Rev(Format(s)) && Rev(Format(t)) + "" == Rev(Format(t));
    LtTotal(Rev(Format(s)), Rev(Format(t)));
    assert |Format(s)| != |Format(t)|;
  }
}
