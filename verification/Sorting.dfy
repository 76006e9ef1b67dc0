/** sort.Sort: some sorted permutation of its argument. */
module Sorting {

  /** less is a strict order whose incomparability is transitive, as sort.Interface asks. */
  ghost predicate IsOrder<T(!new)>(less: (T, T) -> bool) {
    && (forall a :: !less(a, a))
    && (forall a, b, c :: less(a, b) && less(b, c) ==> less(a, c))
    && (forall a, b, c :: less(a, c) ==> less(a, b) || less(b, c))
  }

  ghost predicate Sorted<T>(s: seq<T>, less: (T, T) -> bool) {
    forall i, j :: 0 <= i < j < |s| ==> !less(s[j], s[i])
  }

  /** No two elements tie. */
  ghost predicate StrictlySorted<T>(s: seq<T>, less: (T, T) -> bool) {
    forall i, j :: 0 <= i < j < |s| ==> less(s[i], s[j])
  }

  lemma InsertBag<T>(a: seq<T>, x: T, b: seq<T>)
    ensures multiset(a + [x] + b) == multiset(a + b) + multiset{x}
  {
  }

  method Sort<T(!new)>(s: seq<T>, less: (T, T) -> bool) returns (r: seq<T>)
    requires IsOrder(less)
    ensures Sorted(r, less) && multiset(r) == multiset(s)
  {
    r := [];
    for n := 0 to |s|
      invariant Sorted(r, less) && multiset(r) == multiset(s[..n])
    {
      var k := |r|;
      while k > 0 && less(s[n], r[k - 1])
        invariant 0 <= k <= |r|
        invariant forall j :: k <= j < |r| ==> less(s[n], r[j])
      {
        k := k - 1;
      }
      assert s[..n + 1] == s[..n] + [s[n]];
      InsertSorted(r, k, s[n], less);
      r := r[..k] + [s[n]] + r[k..];
    }
    assert s[..|s|] == s;
  }

  lemma InsertSorted<T(!new)>(r: seq<T>, k: nat, x: T, less: (T, T) -> bool)
    requires IsOrder(less) && Sorted(r, less) && k <= |r|
    requires forall j :: k <= j < |r| ==> less(x, r[j])
    requires k > 0 ==> !less(x, r[k - 1])
    ensures Sorted(r[..k] + [x] + r[k..], less) && multiset(r[..k] + [x] + r[k..]) == multiset(r) + multiset{x}
  {
    InsertBag(r[..k], x, r[k..]);
    assert r[..k] + r[k..] == r;
    forall i | 0 <= i < k ensures !less(x, r[i]) {
      assert i < k - 1 ==> !less(r[k - 1], r[i]);
    }
    Insert(r, k, x, less);
  }

  lemma Insert<T(!new)>(r: seq<T>, k: nat, x: T, less: (T, T) -> bool)
    requires Sorted(r, less) && k <= |r| && forall a, b :: less(a, b) ==> !less(b, a)
    requires forall j :: k <= j < |r| ==> less(x, r[j])
    requires forall j :: 0 <= j < k ==> !less(x, r[j])
    ensures Sorted(r[..k] + [x] + r[k..], less)
  {
    var s := r[..k] + [x] + r[k..];
    assert forall i :: 0 <= i < |s| ==> s[i] == if i < k then r[i] else if i == k then x else r[i - 1];
  }

  lemma HeadsSame<T(!new)>(a: seq<T>, b: seq<T>, less: (T, T) -> bool)
    requires IsOrder(less) && StrictlySorted(a, less) && StrictlySorted(b, less) && multiset(a) == multiset(b) && a != []
    ensures b != [] && a[0] == b[0]
  {
    assert a[0] in multiset(b);
    assert b != [];
    assert b[0] in multiset(a);
    var i :| 0 <= i < |b| && b[i] == a[0];
    var j :| 0 <= j < |a| && a[j] == b[0];
    if i > 0 && j > 0 {
      assert false;
    }
  }

  lemma TailBag<T>(a: seq<T>)
    requires a != []
    ensures multiset(a[1..]) == multiset(a) - multiset{a[0]}
  {
    assert a == [a[0]] + a[1..];
  }

  /** Sorting has one result when nothing ties. */
  lemma {:induction false} SortedUnique<T(!new)>(a: seq<T>, b: seq<T>, less: (T, T) -> bool)
    requires IsOrder(less) && StrictlySorted(a, less) && StrictlySorted(b, less) && multiset(a) == multiset(b)
    ensures a == b
  {
    if a == [] {
      assert |multiset(b)| == |b|;
    } else {
      HeadsSame(a, b, less);
      TailBag(a);
      TailBag(b);
      SortedUnique(a[1..], b[1..], less);
      assert a == [a[0]] + a[1..] && b == [b[0]] + b[1..];
    }
  }

  // ---- Lists without repetition ---------------------------------------------------------------------

  ghost predicate NoRepeats<T>(s: seq<T>) {
    forall i, j :: 0 <= i < j < |s| ==> s[i] != s[j]
  }

  lemma {:induction false} OnceEach<T>(s: seq<T>, e: T)
    requires NoRepeats(s)
    ensures multiset(s)[e] == if e in s then 1 else 0
  {
    if s != [] {
      var k := |s| - 1;
      assert s == s[..k] + [s[k]];
      OnceEach(s[..k], e);
    }
  }

  lemma Twice<T>(s: seq<T>, i: nat, j: nat)
    requires i < j < |s|
    ensures s[i] == s[j] ==> multiset(s)[s[i]] > 1
  {
    assert s == s[..i] + [s[i]] + s[i + 1..j] + [s[j]] + s[j + 1..];
  }

  lemma SameMembersBag<T(!new)>(a: seq<T>, b: seq<T>)
    requires NoRepeats(a) && NoRepeats(b) && forall e :: e in a <==> e in b
    ensures multiset(a) == multiset(b)
  {
    forall e ensures multiset(a)[e] == multiset(b)[e] {
      OnceEach(a, e);
      OnceEach(b, e);
    }
  }

  lemma SameBagMembers<T(!new)>(a: seq<T>, b: seq<T>)
    requires NoRepeats(a) && multiset(a) == multiset(b)
    ensures NoRepeats(b) && forall e :: e in a <==> e in b
  {
    forall e ensures e in a <==> e in b {
      assert e in b <==> e in multiset(b);
    }
    forall i, j | 0 <= i < j < |b| ensures b[i] != b[j] {
      OnceEach(a, b[i]);
      Twice(b, i, j);
    }
  }

  // ---- Lists with one element left out --------------------------------------------------------------

  lemma OutBag<T>(b: seq<T>, i: nat)
    requires i < |b|
    ensures multiset(b[..i] + b[i + 1..]) == multiset(b) - multiset{b[i]}
  {
    InsertBag(b[..i], b[i], b[i + 1..]);
    assert b == b[..i] + [b[i]] + b[i + 1..];
  }

  lemma OutFront<T>(b: seq<T>, i: nat)
    requires i < |b| - 1
    ensures var (k, rest) := (|b| - 1, b[..i] + b[i + 1..]);
            rest[..k - 1] == b[..k][..i] + b[..k][i + 1..] && rest[k - 1] == b[k] && |rest| == k
  {
  }

  // ---- Lists with two elements exchanged ------------------------------------------------------------

  function Swapped<T>(s: seq<T>, i: nat, j: nat): seq<T>
    requires i < j < |s|
  {
    s[i := s[j]][j := s[i]]
  }

  lemma SwapMembers<T(!new)>(s: seq<T>, i: nat, j: nat)
    requires i < j < |s| && NoRepeats(s)
    ensures NoRepeats(Swapped(s, i, j)) && forall e :: e in Swapped(s, i, j) <==> e in s
  {
    var r := Swapped(s, i, j);
    assert forall k :: 0 <= k < |s| ==> r[k] == s[if k == i then j else if k == j then i else k];
    assert forall k :: 0 <= k < |s| ==> s[k] == r[if k == i then j else if k == j then i else k];
  }

  /** In a sorted list, elements that tie can change places. */
  lemma SwapTied<T(!new)>(s: seq<T>, i: nat, j: nat, less: (T, T) -> bool)
    requires IsOrder(less) && Sorted(s, less) && i < j < |s| && !less(s[i], s[j])
    ensures Sorted(Swapped(s, i, j), less)
  {
    var r := Swapped(s, i, j);
    forall m, n | 0 <= m < n < |r| ensures !less(r[n], r[m]) {
      TieAlike(s[m], s[i], s[j], less);
      TieAlike(s[n], s[i], s[j], less);
    }
  }

  /** Elements that tie compare alike with all others. */
  lemma TieAlike<T(!new)>(a: T, x: T, y: T, less: (T, T) -> bool)
    requires IsOrder(less) && !less(x, y) && !less(y, x)
    ensures less(a, x) == less(a, y) && less(x, a) == less(y, a)
  {
  }
}
