/** Deletion of permanodes and claims in the in-memory corpus: IsDeletedLocked, updateDeletes and
    initDeletes of pkg/index/corpus.go. */
module Deletions {
  import opened BlobRef
  import opened Sorting

  /** A time.Time: Before compares the instants, == compares the location as well. */
  datatype Time = Time(instant: int, location: int)

  datatype Deletion = Deletion(deleter: Ref, when: Time)

  /** A delete claim: `deleter` deletes `target`. */
  datatype DeleteClaim = DeleteClaim(target: Ref, deleter: Ref, when: Time)

  type Deletes = map<Ref, seq<Deletion>>

  ghost predicate HasDeleter(d: Deletes, x: Ref, y: Ref) {
    x in d && Lists(d[x], y)
  }

  ghost predicate Lists(l: seq<Deletion>, y: Ref) {
    exists i :: 0 <= i < |l| && l[i].deleter == y
  }

  /** rank falls along every chain of deletions. */
  ghost predicate Descends(d: Deletes, rank: Ref -> nat) {
    forall x, y :: HasDeleter(d, x, y) ==> rank(y) < rank(x)
  }

  /** No claim deletes itself, directly or through others; blob references are hashes of contents
      that name their target, so every history of real claims is like this. */
  ghost predicate Acyclic(d: Deletes) {
    exists rank: Ref -> nat :: Descends(d, rank)
  }

  /** A chain of deletions: each entry is deleted by the next. */
  ghost predicate IsChain(d: Deletes, p: seq<Ref>) {
    p != [] && forall i :: 0 <= i < |p| - 1 ==> HasDeleter(d, p[i], p[i + 1])
  }

  ghost predicate Reaches(d: Deletes, x: Ref, y: Ref) {
    exists p :: IsChain(d, p) && p[0] == x && p[|p| - 1] == y
  }

  ghost predicate IsCycle(d: Deletes, p: seq<Ref>) { IsChain(d, p) && |p| > 1 && p[0] == p[|p| - 1] }

  lemma {:induction false} RankFalls(d: Deletes, rank: Ref -> nat, p: seq<Ref>, n: nat)
    requires Descends(d, rank) && IsChain(d, p) && 0 < n < |p|
    ensures rank(p[n]) < rank(p[0])
  {
    assert HasDeleter(d, p[n - 1], p[n - 1 + 1]);
    if n > 1 { RankFalls(d, rank, p, n - 1); }
  }

  ghost function Below(d: Deletes, x: Ref): set<Ref> { set y | y in d.Keys && Reaches(d, x, y) }

  lemma ReachesItself(d: Deletes, x: Ref)
    ensures Reaches(d, x, x)
  {
    assert IsChain(d, [x]);
  }

  lemma ReachesMore(d: Deletes, x: Ref, y: Ref, z: Ref)
    requires HasDeleter(d, x, y) && Reaches(d, y, z)
    ensures exists q :: IsChain(d, q) && |q| > 1 && q[0] == x && q[|q| - 1] == z
  {
    var p :| IsChain(d, p) && p[0] == y && p[|p| - 1] == z;
    var q := [x] + p;
    assert IsChain(d, q) by {
      forall i | 0 <= i < |q| - 1 ensures HasDeleter(d, q[i], q[i + 1]) {
        if i > 0 { assert HasDeleter(d, p[i - 1], p[i - 1 + 1]); }
      }
    }
  }

  lemma Smaller(a: set<Ref>, b: set<Ref>, x: Ref)
    requires a <= b && x in b && x !in a
    ensures |a| < |b|
  {
    assert b == a + (b - a) && x in b - a;
  }

  lemma BelowFalls(d: Deletes, x: Ref, y: Ref)
    requires HasDeleter(d, x, y) && forall p :: IsCycle(d, p) ==> p[0] != x
    ensures |Below(d, y)| < |Below(d, x)|
  {
    ReachesItself(d, x);
    forall z | z in Below(d, y) ensures z in Below(d, x) && z != x {
      ReachesMore(d, x, y, z);
      var q :| IsChain(d, q) && |q| > 1 && q[0] == x && q[|q| - 1] == z;
      assert IsCycle(d, q) <==> q[0] == z;
    }
    Smaller(Below(d, y), Below(d, x), x);
  }

  /** A ranking exists exactly when no chain of deletions comes back to its start. */
  lemma AcyclicIff(d: Deletes)
    ensures Acyclic(d) <==> forall p :: !IsCycle(d, p)
  {
    if Acyclic(d) {
      forall p ensures !IsCycle(d, p) {
        if IsChain(d, p) && |p| > 1 { RankFalls(d, Rank(d), p, |p| - 1); }
      }
    }
    if forall p :: !IsCycle(d, p) {
      var rank: Ref -> nat := x => |Below(d, x)|;
      forall x, y | HasDeleter(d, x, y) ensures rank(y) < rank(x) { BelowFalls(d, x, y); }
      assert Descends(d, rank);
    }
  }

  ghost function Rank(d: Deletes): (rank: Ref -> nat)
    requires Acyclic(d)
    ensures Descends(d, rank)
  {
    var rank: Ref -> nat :| Descends(d, rank);
    rank
  }

  /** IsDeletedLocked. */
  predicate IsDeleted(d: Deletes, x: Ref)
    requires Acyclic(d)
    decreases Rank(d)(x)
  {
    x in d && exists i | 0 <= i < |d[x]| :: (assert HasDeleter(d, x, d[x][i].deleter); !IsDeleted(d, d[x][i].deleter))
  }

  /** p says that x is deleted exactly when something that is not deleted deletes it. */
  ghost predicate Settles(d: Deletes, p: Ref -> bool) {
    forall x :: p(x) <==> exists y :: HasDeleter(d, x, y) && !p(y)
  }

  lemma DeletedIff(d: Deletes, x: Ref)
    requires Acyclic(d)
    ensures IsDeleted(d, x) <==> exists y :: HasDeleter(d, x, y) && !IsDeleted(d, y)
  {
    if IsDeleted(d, x) {
      var i :| 0 <= i < |d[x]| && !IsDeleted(d, d[x][i].deleter);
      assert HasDeleter(d, x, d[x][i].deleter);
    }
  }

  lemma {:induction false} SettledOnce(d: Deletes, p: Ref -> bool, x: Ref)
    requires Acyclic(d) && Settles(d, p)
    ensures p(x) == IsDeleted(d, x)
    decreases Rank(d)(x)
  {
    forall y | HasDeleter(d, x, y) ensures p(y) == IsDeleted(d, y) {
      SettledOnce(d, p, y);
    }
    DeletedIff(d, x);
  }

  /** On an acyclic history IsDeletedLocked settles every question, and nothing else does. */
  lemma IsDeletedSettles(d: Deletes, p: Ref -> bool)
    requires Acyclic(d)
    ensures Settles(d, p) <==> forall x :: p(x) == IsDeleted(d, x)
  {
    if Settles(d, p) {
      forall x ensures p(x) == IsDeleted(d, x) { SettledOnce(d, p, x); }
    }
    if forall x :: p(x) == IsDeleted(d, x) {
      forall x ensures p(x) <==> exists y :: HasDeleter(d, x, y) && !p(y) { DeletedIff(d, x); }
    }
  }

  /** A claim that deletes itself cannot be settled, ... */
  lemma SelfDeletionUnsettled(x: Ref, t: Time, p: Ref -> bool)
    ensures !Settles(map[x := [Deletion(x, t)]], p)
  {
    var d: Deletes := map[x := [Deletion(x, t)]];
    assert d[x][0].deleter == x;
    assert HasDeleter(d, x, x);
    assert (exists z :: HasDeleter(d, x, z) && !p(z)) <==> !p(x);
  }

  /** ... and two claims that delete each other can be settled in exactly two ways. */
  lemma MutualDeletionAmbiguous(x: Ref, y: Ref, t: Time, p: Ref -> bool)
    requires x != y
    ensures Settles(map[x := [Deletion(y, t)], y := [Deletion(x, t)]], p) <==>
            (forall r :: p(r) <==> r == x) || (forall r :: p(r) <==> r == y)
  {
    var d: Deletes := map[x := [Deletion(y, t)], y := [Deletion(x, t)]];
    assert d[x][0].deleter == y && d[y][0].deleter == x;
    assert HasDeleter(d, x, y) && HasDeleter(d, y, x);
    assert forall r, z :: HasDeleter(d, r, z) <==> (r == x && z == y) || (r == y && z == x);
    assert Settles(d, p) ==> (p(x) <==> !p(y)) && forall r :: p(r) ==> r == x || r == y;
  }

  ghost predicate SameDeleters(d: Deletes, d': Deletes) {
    forall x, y :: HasDeleter(d, x, y) <==> HasDeleter(d', x, y)
  }

  /** Only who deletes whom matters, not the order, the dates or the repetitions in the lists. */
  lemma OnlyDeletersMatter(d: Deletes, d': Deletes)
    requires Acyclic(d) && SameDeleters(d, d')
    ensures Acyclic(d') && forall x :: IsDeleted(d', x) == IsDeleted(d, x)
  {
    assert Descends(d', Rank(d));
    forall x ensures IsDeleted(d', x) == IsDeleted(d, x) {
      SameAnswer(d, d', x);
    }
  }

  lemma {:induction false} SameAnswer(d: Deletes, d': Deletes, x: Ref)
    requires Acyclic(d) && Acyclic(d') && SameDeleters(d, d')
    ensures IsDeleted(d', x) == IsDeleted(d, x)
    decreases Rank(d)(x)
  {
    forall y | HasDeleter(d, x, y) ensures IsDeleted(d', y) == IsDeleted(d, y) {
      SameAnswer(d, d', y);
    }
    DeletedIff(d, x);
    DeletedIff(d', x);
  }

  // ---- Keeping the lists ------------------------------------------------------------------------

  predicate Newer(a: Deletion, b: Deletion) { b.when.instant < a.when.instant }

  ghost predicate Descending(l: seq<Deletion>) {
    forall i, j :: 0 <= i < j < |l| ==> l[i].when.instant >= l[j].when.instant
  }

  ghost predicate NewestFirst(d: Deletes) {
    forall x :: x in d ==> Descending(d[x])
  }

  /** The deletion graph of a list of delete claims. */
  ghost predicate Claimed(claims: seq<DeleteClaim>, x: Ref, y: Ref) {
    exists i :: 0 <= i < |claims| && claims[i].target == x && claims[i].deleter == y
  }

  ghost predicate ClaimsDescend(claims: seq<DeleteClaim>, rank: Ref -> nat) {
    forall x, y :: Claimed(claims, x, y) ==> rank(y) < rank(x)
  }

  ghost predicate AcyclicClaims(claims: seq<DeleteClaim>) {
    exists rank: Ref -> nat :: ClaimsDescend(claims, rank)
  }

  lemma ClaimedSnoc(claims: seq<DeleteClaim>, cl: DeleteClaim, x: Ref, y: Ref)
    ensures Claimed(claims + [cl], x, y) <==> Claimed(claims, x, y) || (x == cl.target && y == cl.deleter)
  {
    var c := claims + [cl];
    assert c[|claims|] == cl;
    assert forall i :: 0 <= i < |claims| ==> c[i] == claims[i];
  }

  /** d' has the deleters of d and one more. */
  ghost predicate Adds(d: Deletes, target: Ref, deleter: Ref, d': Deletes) {
    forall x, y :: HasDeleter(d', x, y) <==> HasDeleter(d, x, y) || (x == target && y == deleter)
  }

  function ListOf(d: Deletes, x: Ref): seq<Deletion> { if x in d then d[x] else [] }

  /** The claim's deletion joins the list of its target, and nothing else changes. */
  ghost predicate Lengthened(d: Deletes, cl: DeleteClaim, d': Deletes) {
    && multiset(ListOf(d', cl.target)) == multiset(ListOf(d, cl.target) + [Deletion(cl.deleter, cl.when)])
    && d' - {cl.target} == d - {cl.target}
  }

  /** A list with one more deletion, in any order, has one more deleter. */
  lemma OneMore(d: Deletes, target: Ref, del: Deletion, l: seq<Deletion>)
    requires multiset(l) == multiset(ListOf(d, target) + [del])
    ensures Adds(d, target, del.deleter, d[target := l])
  {
    var listed := ListOf(d, target);
    var d' := d[target := l];
    forall x, y ensures HasDeleter(d', x, y) <==> HasDeleter(d, x, y) || (x == target && y == del.deleter) {
      if x == target {
        SameBag(l, listed + [del], y);
        OneMoreListed(listed, del, y);
      }
    }
  }

  lemma SameBag(l: seq<Deletion>, s: seq<Deletion>, y: Ref)
    requires multiset(l) == multiset(s)
    ensures Lists(l, y) <==> Lists(s, y)
  {
    forall i | 0 <= i < |l| ensures l[i] in s { assert l[i] in multiset(s); }
    forall i | 0 <= i < |s| ensures s[i] in l { assert s[i] in multiset(l); }
  }

  lemma OneMoreListed(l: seq<Deletion>, del: Deletion, y: Ref)
    ensures Lists(l + [del], y) <==> Lists(l, y) || y == del.deleter
  {
    var s := l + [del];
    assert s[|l|] == del;
    assert forall i :: 0 <= i < |l| ==> s[i] == l[i];
  }

  class Corpus {
    var deletes: Deletes

    constructor ()
      ensures deletes == map[]
    {
      deletes := map[];
    }

    /** updateDeletes: does nothing for a deletion that is already listed. */
    method UpdateDeletes(cl: DeleteClaim)
      requires NewestFirst(deletes)
      modifies this
      ensures NewestFirst(deletes)
      ensures if Deletion(cl.deleter, cl.when) in ListOf(old(deletes), cl.target) then deletes == old(deletes) else Lengthened(old(deletes), cl, deletes)
      ensures Adds(old(deletes), cl.target, cl.deleter, deletes)
    {
      var del := Deletion(cl.deleter, cl.when);
      var listed := ListOf(deletes, cl.target);
      for i := 0 to |listed|
        invariant forall j :: 0 <= j < i ==> listed[j] != del
      {
        if listed[i] == del {
          assert HasDeleter(deletes, cl.target, cl.deleter);
          return;
        }
      }
      LoadDelete(cl);
    }

    /** One row of initDeletes, and the end of updateDeletes: appended and sorted without looking
        for duplicates. */
    method LoadDelete(cl: DeleteClaim)
      requires NewestFirst(deletes)
      modifies this
      ensures NewestFirst(deletes) && Lengthened(old(deletes), cl, deletes)
      ensures Adds(old(deletes), cl.target, cl.deleter, deletes)
    {
      var del := Deletion(cl.deleter, cl.when);
      var sorted := Sort(ListOf(deletes, cl.target) + [del], Newer);
      ghost var before := deletes;
      deletes := deletes[cl.target := sorted];
      OneMore(before, cl.target, del, sorted);
    }
  }

  /** A corpus that received the claims one by one, in this order. */
  method Receive(claims: seq<DeleteClaim>) returns (d: Deletes)
    ensures NewestFirst(d) && forall x, y :: HasDeleter(d, x, y) <==> Claimed(claims, x, y)
  {
    var c := new Corpus();
    for n := 0 to |claims|
      invariant NewestFirst(c.deletes)
      invariant forall x, y :: HasDeleter(c.deletes, x, y) <==> Claimed(claims[..n], x, y)
    {
      assert claims[..n + 1] == claims[..n] + [claims[n]];
      forall x, y ensures Claimed(claims[..n + 1], x, y) <==> Claimed(claims[..n], x, y) || (x == claims[n].target && y == claims[n].deleter) {
        ClaimedSnoc(claims[..n], claims[n], x, y);
      }
      c.UpdateDeletes(claims[n]);
    }
    assert claims[..|claims|] == claims;
    d := c.deletes;
  }

  /** A corpus loaded by initDeletes from rows in this order. */
  method Load(rows: seq<DeleteClaim>) returns (d: Deletes)
    ensures NewestFirst(d) && forall x, y :: HasDeleter(d, x, y) <==> Claimed(rows, x, y)
  {
    var c := new Corpus();
    for n := 0 to |rows|
      invariant NewestFirst(c.deletes)
      invariant forall x, y :: HasDeleter(c.deletes, x, y) <==> Claimed(rows[..n], x, y)
    {
      assert rows[..n + 1] == rows[..n] + [rows[n]];
      forall x, y ensures Claimed(rows[..n + 1], x, y) <==> Claimed(rows[..n], x, y) || (x == rows[n].target && y == rows[n].deleter) {
        ClaimedSnoc(rows[..n], rows[n], x, y);
      }
      c.LoadDelete(rows[n]);
    }
    assert rows[..|rows|] == rows;
    d := c.deletes;
  }

  /** p says that x is deleted exactly when some claim by something that is not deleted says so. */
  ghost predicate SettlesClaims(claims: seq<DeleteClaim>, p: Ref -> bool) {
    forall x :: p(x) <==> exists y :: Claimed(claims, x, y) && !p(y)
  }

  /** The answer on a corpus that holds exactly these claims is that of whatever settles them. */
  lemma AnswerFits(claims: seq<DeleteClaim>, d: Deletes, x: Ref, p: Ref -> bool)
    requires Acyclic(d) && (forall a, b :: HasDeleter(d, a, b) <==> Claimed(claims, a, b)) && SettlesClaims(claims, p)
    ensures IsDeleted(d, x) == p(x)
  {
    forall r ensures p(r) <==> exists y :: HasDeleter(d, r, y) && !p(y) {
      if y :| Claimed(claims, r, y) && !p(y) { assert HasDeleter(d, r, y); }
    }
    SettledOnce(d, p, x);
  }

  /** Some function settles the claims, so there is an answer to fit. */
  lemma ClaimsSettled(claims: seq<DeleteClaim>, d: Deletes) returns (p: Ref -> bool)
    requires Acyclic(d) && forall a, b :: HasDeleter(d, a, b) <==> Claimed(claims, a, b)
    ensures SettlesClaims(claims, p)
  {
    p := r => IsDeleted(d, r);
    forall r ensures p(r) <==> exists y :: Claimed(claims, r, y) && !p(y) {
      DeletedIff(d, r);
      if y :| HasDeleter(d, r, y) && !IsDeleted(d, y) { assert Claimed(claims, r, y) && !p(y); }
    }
  }

  /** However the same acyclic set of deletions arrives, received in any order, repeated, or loaded
      from storage, the answer is the one that settles the claims, and there is exactly one. */
  method SameAnswersAllWays(claims: seq<DeleteClaim>, again: seq<DeleteClaim>, rows: seq<DeleteClaim>, x: Ref)
    returns (received: bool, receivedAgain: bool, loaded: bool)
    requires AcyclicClaims(claims)
    requires forall a, b :: Claimed(claims, a, b) <==> Claimed(again, a, b)
    requires forall a, b :: Claimed(claims, a, b) <==> Claimed(rows, a, b)
    ensures exists p :: SettlesClaims(claims, p)
    ensures forall p :: SettlesClaims(claims, p) ==> received == receivedAgain == loaded == p(x)
  {
    var d := Receive(claims);
    var d' := Receive(again);
    var d'' := Load(rows);
    assert Acyclic(d) by {
      var rank: Ref -> nat :| ClaimsDescend(claims, rank);
      assert Descends(d, rank);
    }
    OnlyDeletersMatter(d, d');
    OnlyDeletersMatter(d, d'');
    received, receivedAgain, loaded := IsDeleted(d, x), IsDeleted(d', x), IsDeleted(d'', x);
    ghost var settled := ClaimsSettled(claims, d);
    forall p | SettlesClaims(claims, p) ensures received == p(x) { AnswerFits(claims, d, x, p); }
  }
}
