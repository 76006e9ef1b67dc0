/** Go's byte order on strings and byte slices. A Go string and a []byte are both modelled as
    a Dafny string, one char per byte. */
module ByteOrder {

  /** bytes.Compare(a, b) < 0, and a < b on Go strings. */
  predicate Lt(a: string, b: string) {
    b != [] && (a == [] || a[0] < b[0] || (a[0] == b[0] && Lt(a[1..], b[1..])))
  }

  lemma LtIrreflexive(a: string)
    ensures !Lt(a, a)
  {
  }

  lemma LtTransitive(a: string, b: string, c: string)
    requires Lt(a, b) && Lt(b, c)
    ensures Lt(a, c)
  {
    if a != [] && a[0] == b[0] == c[0] { LtTransitive(a[1..], b[1..], c[1..]); }
  }

  lemma LtTotal(a: string, b: string)
    ensures a == b || Lt(a, b) || Lt(b, a)
  {
    if a != [] && b != [] && a[0] == b[0] {
      LtTotal(a[1..], b[1..]);
      if a[1..] == b[1..] { assert a == [a[0]] + a[1..] == b; }
    }
  }

  lemma LtAsymmetric(a: string, b: string)
    requires Lt(a, b)
    ensures !Lt(b, a) && a != b
  {
    if Lt(b, a) { LtTransitive(a, b, a); }
    LtIrreflexive(a);
  }

  /** Strings on either side of b. */
  lemma LtWeak(a: string, b: string, c: string)
    requires Lt(a, c)
    ensures Lt(a, b) || Lt(b, c)
  {
    LtTotal(a, b);
    if Lt(b, a) { LtTransitive(b, a, c); }
  }

  /** A common prefix does not matter. */
  lemma LtPrefix(p: string, a: string, b: string)
    ensures Lt(p + a, p + b) <==> Lt(a, b)
  {
    if p == [] {
      assert p + a == a && p + b == b;
    } else {
      assert (p + a)[1..] == p[1..] + a && (p + b)[1..] == p[1..] + b;
      LtPrefix(p[1..], a, b);
    }
  }

  /** A proper prefix comes first. */
  lemma LtExtend(a: string, b: string)
    requires b != []
    ensures Lt(a, a + b)
  {
    LtPrefix(a, [], b);
    assert a + [] == a;
  }
}
