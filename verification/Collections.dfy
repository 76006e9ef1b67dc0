/** Small facts about sequences and sets. */
module Collections {

  /** The first elements, at most limit. */
  function Cut<T>(s: seq<T>, limit: nat): seq<T> {
    if |s| <= limit then s else s[..limit]
  }

  lemma Associative<T>(a: seq<T>, b: seq<T>, c: seq<T>)
    ensures a + b + c == a + (b + c)
  {
  }

  lemma DropFirst<T>(a: seq<T>, b: seq<T>)
    requires a != []
    ensures (a + b)[0] == a[0] && (a + b)[1..] == a[1..] + b
  {
  }

  lemma SuffixStep<T>(s: seq<T>, i: nat)
    requires i < |s|
    ensures s[i..] != [] && s[i..][0] == s[i] && s[i..][1..] == s[i + 1..]
  {
  }

  lemma SubsetSize<T>(a: set<T>, b: set<T>)
    requires a <= b
    ensures |a| <= |b|
  {
    assert b == a + (b - a);
  }

  lemma PrefixMore<T>(a: seq<T>, b: seq<T>, n: nat)
    requires n < |a| && n < |b| && a[..n] == b[..n] && a[n] == b[n]
    ensures a[..n + 1] == b[..n + 1]
  {
    assert a[..n + 1] == a[..n] + [a[n]] && b[..n + 1] == b[..n] + [b[n]];
  }

  /** The members of `which`, smallest first. */
  ghost predicate InOrder(idx: seq<nat>, which: set<nat>) {
    && (forall j, k :: 0 <= j < k < |idx| ==> idx[j] < idx[k])
    && (forall i :: i in idx <==> i in which)
  }

  lemma InOrderMore(idx: seq<nat>, which: set<nat>, n: nat)
    requires InOrder(idx, which) && forall i :: i in which ==> i < n
    ensures InOrder(idx + [n], which + {n})
  {
    assert forall k :: 0 <= k < |idx| ==> idx[k] in which;
  }

  /** The elements of s at the positions in `which`, in order. */
  ghost predicate Picks<T>(s: seq<T>, which: set<nat>, vals: seq<T>) {
    exists idx: seq<nat> :: InOrder(idx, which) && PickedAt(s, idx, vals)
  }

  ghost predicate PickedAt<T>(s: seq<T>, idx: seq<nat>, vals: seq<T>) {
    |idx| == |vals| && forall k :: 0 <= k < |vals| ==> idx[k] < |s| && vals[k] == s[idx[k]]
  }

  lemma PicksNone<T>(s: seq<T>)
    ensures Picks(s, {}, [])
  {
    assert InOrder([], {}) && PickedAt(s, [], []);
  }

  lemma PicksSnoc<T>(s: seq<T>, which: set<nat>, vals: seq<T>, n: nat)
    requires n < |s| && Picks(s, which, vals) && forall i :: i in which ==> i < n
    ensures Picks(s, which + {n}, vals + [s[n]])
  {
    var idx :| InOrder(idx, which) && PickedAt(s, idx, vals);
    InOrderMore(idx, which, n);
    assert PickedAt(s, idx + [n], vals + [s[n]]);
  }
}
