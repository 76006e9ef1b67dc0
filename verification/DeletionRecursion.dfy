/** When the recursion of IsDeletedLocked in pkg/index/corpus.go returns. */
module DeletionRecursion {
  import opened Options
  import opened BlobRef
  import opened Sorting
  import opened Deletions

  /** IsDeletedLocked with a bound on the depth of the recursion, None when it is exceeded: the
      deleters are asked in the order of the list, up to the first that is not deleted. */
  function Eval(d: Deletes, x: Ref, depth: nat): Option<bool>
    decreases depth, 0
  {
    if depth == 0 then None else Scan(d, ListOf(d, x), depth - 1)
  }

  /** The loop over the list. */
  function Scan(d: Deletes, l: seq<Deletion>, depth: nat): Option<bool>
    decreases depth, |l| + 1
  {
    if l == [] then Some(false)
    else
      match Eval(d, l[0].deleter, depth)
      case None => None
      case Some(deleted) => if deleted then Scan(d, l[1..], depth) else Some(true)
  }

  /** IsDeletedLocked(x) ends. */
  ghost predicate Returns(d: Deletes, x: Ref) {
    exists depth :: Eval(d, x, depth).Some?
  }

  // ---- What it returns ------------------------------------------------------------------------------

  lemma {:induction false} DeeperSame(d: Deletes, x: Ref, depth: nat, deeper: nat)
    requires depth <= deeper && Eval(d, x, depth).Some?
    ensures Eval(d, x, deeper) == Eval(d, x, depth)
    decreases depth, 0
  {
    ScanDeeperSame(d, ListOf(d, x), depth - 1, deeper - 1);
  }

  lemma {:induction false} ScanDeeperSame(d: Deletes, l: seq<Deletion>, depth: nat, deeper: nat)
    requires depth <= deeper && Scan(d, l, depth).Some?
    ensures Scan(d, l, deeper) == Scan(d, l, depth)
    decreases depth, |l| + 1
  {
    if l != [] {
      DeeperSame(d, l[0].deleter, depth, deeper);
      if Eval(d, l[0].deleter, depth).value { ScanDeeperSame(d, l[1..], depth, deeper); }
    }
  }

  /** Whatever settles the history, cyclic or not, agrees with every answer that is returned. */
  lemma {:induction false} AnswerSettled(d: Deletes, p: Ref -> bool, x: Ref, depth: nat)
    requires Settles(d, p) && Eval(d, x, depth).Some?
    ensures Eval(d, x, depth).value == p(x)
    decreases depth, 0
  {
    var l := ListOf(d, x);
    ScanSettled(d, p, l, depth - 1);
    if i :| 0 <= i < |l| && !p(l[i].deleter) { assert HasDeleter(d, x, l[i].deleter); }
    if y :| HasDeleter(d, x, y) && !p(y) {
      var i :| 0 <= i < |l| && l[i].deleter == y;
      assert !p(l[i].deleter);
    }
  }

  lemma {:induction false} ScanSettled(d: Deletes, p: Ref -> bool, l: seq<Deletion>, depth: nat)
    requires Settles(d, p) && Scan(d, l, depth).Some?
    ensures Scan(d, l, depth).value <==> exists i :: 0 <= i < |l| && !p(l[i].deleter)
    decreases depth, |l| + 1
  {
    if l != [] {
      AnswerSettled(d, p, l[0].deleter, depth);
      if p(l[0].deleter) {
        ScanSettled(d, p, l[1..], depth);
        if i :| 0 <= i < |l| && !p(l[i].deleter) { assert l[1..][i - 1] == l[i]; }
      }
    }
  }

  /** On an acyclic history the answer is IsDeleted. */
  lemma AnswerIsDeleted(d: Deletes, x: Ref, depth: nat)
    requires Acyclic(d) && Eval(d, x, depth).Some?
    ensures Eval(d, x, depth).value == IsDeleted(d, x)
  {
    var p: Ref -> bool := r => IsDeleted(d, r);
    IsDeletedSettles(d, p);
    AnswerSettled(d, p, x, depth);
  }

  // ---- When it returns ------------------------------------------------------------------------------

  /** A chain of deletions from x that comes back to one of its own entries. */
  ghost predicate IsLasso(d: Deletes, x: Ref, p: seq<Ref>) {
    IsChain(d, p) && p[0] == x && exists i :: 0 <= i < |p| - 1 && p[i] == p[|p| - 1]
  }

  /** x is deleted, through however many others, by a claim that deletes itself the same way. */
  ghost predicate LeadsToCycle(d: Deletes, x: Ref) {
    exists p :: IsLasso(d, x, p)
  }

  lemma LassoLonger(d: Deletes, x: Ref, y: Ref)
    requires HasDeleter(d, x, y) && LeadsToCycle(d, y)
    ensures LeadsToCycle(d, x)
  {
    var p :| IsLasso(d, y, p);
    var i :| 0 <= i < |p| - 1 && p[i] == p[|p| - 1];
    var q := [x] + p;
    assert IsChain(d, q) by {
      forall j | 0 <= j < |q| - 1 ensures HasDeleter(d, q[j], q[j + 1]) {
        if j > 0 { assert HasDeleter(d, p[j - 1], p[j - 1 + 1]); }
      }
    }
    assert q[i + 1] == q[|q| - 1];
    assert IsLasso(d, x, q);
  }

  /** With no cycle in reach the depth is bounded by the number of refs in reach. */
  lemma {:induction false} ReturnsWithin(d: Deletes, x: Ref)
    requires !LeadsToCycle(d, x)
    ensures Eval(d, x, |Below(d, x)| + 1).Some?
    decreases |Below(d, x)|
  {
    forall p | IsCycle(d, p) ensures p[0] != x {
      assert p[0] == x ==> IsLasso(d, x, p);
    }
    var (l, n) := (ListOf(d, x), |Below(d, x)|);
    forall i | 0 <= i < |l| ensures Eval(d, l[i].deleter, n).Some? {
      var y := l[i].deleter;
      assert HasDeleter(d, x, y);
      BelowFalls(d, x, y);
      if LeadsToCycle(d, y) { LassoLonger(d, x, y); }
      ReturnsWithin(d, y);
      DeeperSame(d, y, |Below(d, y)| + 1, n);
    }
    ScanReturns(d, l, n);
  }

  lemma {:induction false} ScanReturns(d: Deletes, l: seq<Deletion>, depth: nat)
    requires forall i :: 0 <= i < |l| ==> Eval(d, l[i].deleter, depth).Some?
    ensures Scan(d, l, depth).Some?
  {
    if l != [] { ScanReturns(d, l[1..], depth); }
  }

  lemma SameLassos(d: Deletes, d': Deletes, x: Ref)
    requires SameDeleters(d, d') && LeadsToCycle(d', x)
    ensures LeadsToCycle(d, x)
  {
    var p :| IsLasso(d', x, p);
    assert forall i :: 0 <= i < |p| - 1 ==> HasDeleter(d', p[i], p[i + 1]);
    assert IsLasso(d, x, p);
  }

  // A lasso, and an order of the lists in which the recursion goes around it for ever.

  /** r is on the lasso; its last entry is there twice. */
  ghost predicate OnLasso(p: seq<Ref>, r: Ref) { exists k :: 0 <= k < |p| - 1 && p[k] == r }

  ghost function Next(p: seq<Ref>, r: Ref): Ref
    requires OnLasso(p, r)
  {
    var k :| 0 <= k < |p| - 1 && p[k] == r;
    p[k + 1]
  }

  lemma NextOn(d: Deletes, x: Ref, p: seq<Ref>, r: Ref)
    requires IsLasso(d, x, p) && OnLasso(p, r)
    ensures HasDeleter(d, r, Next(p, r)) && OnLasso(p, Next(p, r))
  {
    var k :| 0 <= k < |p| - 1 && p[k] == r && Next(p, r) == p[k + 1];
    assert HasDeleter(d, p[k], p[k + 1]);
    if k + 1 < |p| - 1 {
      assert p[k + 1] == Next(p, r);
    }
  }

  const EARLY := Time(0, 0)
  const LATE := Time(1, 0)

  /** The deletions of l, without those by `skip`, at one early date. */
  function Early(l: seq<Deletion>, skip: Option<Ref>): seq<Deletion> {
    if l == [] then []
    else
      var (k, before) := (|l| - 1, Early(l[..|l| - 1], skip));
      if skip == Some(l[k].deleter) then before else before + [Deletion(l[k].deleter, EARLY)]
  }

  lemma {:induction false} EarlyLists(l: seq<Deletion>, skip: Option<Ref>, z: Ref)
    ensures Lists(Early(l, skip), z) <==> Lists(l, z) && skip != Some(z)
  {
    if l != [] {
      var k := |l| - 1;
      EarlyLists(l[..k], skip, z);
      assert l == l[..k] + [l[k]];
      OneMoreListed(l[..k], l[k], z);
      OneMoreListed(Early(l[..k], skip), Deletion(l[k].deleter, EARLY), z);
    }
  }

  lemma {:induction false} EarlyDates(l: seq<Deletion>, skip: Option<Ref>)
    ensures forall i :: 0 <= i < |Early(l, skip)| ==> Early(l, skip)[i].when == EARLY
  {
    if l != [] { EarlyDates(l[..|l| - 1], skip); }
  }

  /** The list with y as the latest deletion. */
  function Latest(l: seq<Deletion>, y: Ref): seq<Deletion> { [Deletion(y, LATE)] + Early(l, Some(y)) }

  lemma LatestLists(l: seq<Deletion>, y: Ref, z: Ref)
    requires Lists(l, y)
    ensures Lists(Latest(l, y), z) <==> Lists(l, z)
  {
    EarlyLists(l, Some(y), z);
    var (f, o) := (Latest(l, y), Early(l, Some(y)));
    assert f[0].deleter == y;
    assert forall i :: 0 <= i < |o| ==> f[i + 1] == o[i];
    assert forall i :: 0 < i < |f| ==> f[i] == o[i - 1];
  }

  lemma ListsSorted(l: seq<Deletion>, y: Ref)
    ensures Descending(Latest(l, y)) && Descending(Early(l, None))
  {
    EarlyDates(l, Some(y));
    EarlyDates(l, None);
    var (f, o) := (Latest(l, y), Early(l, Some(y)));
    assert forall i :: 0 < i < |f| ==> f[i] == o[i - 1];
  }

  /** The list of r when every entry of the lasso has the next one as its latest deletion, and all
      other deletions are equally old. */
  ghost function ListAround(d: Deletes, p: seq<Ref>, r: Ref): seq<Deletion>
    requires r in d
  {
    if OnLasso(p, r) then Latest(d[r], Next(p, r)) else Early(d[r], None)
  }

  ghost function Around(d: Deletes, p: seq<Ref>): Deletes {
    map r | r in d :: ListAround(d, p, r)
  }

  lemma AroundLists(d: Deletes, x: Ref, p: seq<Ref>, r: Ref, z: Ref)
    requires IsLasso(d, x, p) && r in d
    ensures Lists(ListAround(d, p, r), z) <==> Lists(d[r], z)
  {
    if OnLasso(p, r) {
      NextOn(d, x, p, r);
      LatestLists(d[r], Next(p, r), z);
    } else {
      EarlyLists(d[r], None, z);
    }
  }

  lemma AroundSame(d: Deletes, x: Ref, p: seq<Ref>)
    requires IsLasso(d, x, p)
    ensures SameDeleters(d, Around(d, p)) && NewestFirst(Around(d, p))
  {
    var d' := Around(d, p);
    forall r, z ensures HasDeleter(d, r, z) <==> HasDeleter(d', r, z) {
      if r in d { AroundLists(d, x, p, r, z); }
    }
    forall r | r in d' ensures Descending(d'[r]) {
      ListsSorted(d[r], if OnLasso(p, r) then Next(p, r) else Zero);
    }
  }

  /** Each of rs asks another of rs first. */
  ghost predicate RoundAndRound(d: Deletes, rs: set<Ref>) {
    forall r {:trigger ListOf(d, r)} :: r in rs ==> ListOf(d, r) != [] && ListOf(d, r)[0].deleter in rs
  }

  lemma {:induction false} Forever(d: Deletes, rs: set<Ref>, r: Ref, depth: nat)
    requires RoundAndRound(d, rs) && r in rs
    ensures Eval(d, r, depth) == None
    decreases depth
  {
    if depth > 0 { Forever(d, rs, ListOf(d, r)[0].deleter, depth - 1); }
  }

  lemma NeverReturns(d: Deletes, rs: set<Ref>, x: Ref)
    requires RoundAndRound(d, rs) && x in rs
    ensures !Returns(d, x)
  {
    forall depth: nat ensures Eval(d, x, depth) == None { Forever(d, rs, x, depth); }
  }

  ghost function Entries(p: seq<Ref>): set<Ref> { set r | r in p && OnLasso(p, r) }

  lemma EntriesAre(p: seq<Ref>, r: Ref)
    ensures r in Entries(p) <==> OnLasso(p, r)
  {
  }

  lemma AroundAsks(d: Deletes, x: Ref, p: seq<Ref>, r: Ref)
    requires IsLasso(d, x, p) && OnLasso(p, r)
    ensures ListOf(Around(d, p), r) != [] && ListOf(Around(d, p), r)[0].deleter == Next(p, r)
  {
    NextOn(d, x, p, r);
    assert Around(d, p)[r] == Latest(d[r], Next(p, r));
  }

  lemma AroundForever(d: Deletes, x: Ref, p: seq<Ref>)
    requires IsLasso(d, x, p)
    ensures !Returns(Around(d, p), x)
  {
    var d' := Around(d, p);
    forall r | r in Entries(p) ensures ListOf(d', r) != [] && ListOf(d', r)[0].deleter in Entries(p) {
      AroundAsks(d, x, p, r);
      NextOn(d, x, p, r);
      EntriesAre(p, Next(p, r));
    }
    assert p[0] == x;
    EntriesAre(p, x);
    NeverReturns(d', Entries(p), x);
  }

  /** d' lists the deleters of d, in an order that updateDeletes and initDeletes can leave. */
  ghost predicate Arranges(d: Deletes, d': Deletes) { SameDeleters(d, d') && NewestFirst(d') }

  /** IsDeletedLocked(x) returns however the deletions are dated if and only if x leads to no cycle. */
  lemma ReturnsIff(d: Deletes, x: Ref)
    ensures !LeadsToCycle(d, x) <==> forall d' :: Arranges(d, d') ==> Returns(d', x)
  {
    if LeadsToCycle(d, x) {
      var p :| IsLasso(d, x, p);
      AroundSame(d, x, p);
      AroundForever(d, x, p);
      assert Arranges(d, Around(d, p));
    } else {
      forall d' | Arranges(d, d') ensures Returns(d', x) {
        if LeadsToCycle(d', x) { SameLassos(d, d', x); }
        ReturnsWithin(d', x);
      }
    }
  }

  lemma CycleIffLasso(d: Deletes)
    ensures (exists p :: IsCycle(d, p)) <==> exists x :: LeadsToCycle(d, x)
  {
    if p :| IsCycle(d, p) {
      assert IsLasso(d, p[0], p) && LeadsToCycle(d, p[0]);
    }
    if x :| LeadsToCycle(d, x) {
      var p :| IsLasso(d, x, p);
      var i :| 0 <= i < |p| - 1 && p[i] == p[|p| - 1];
      var q := p[i..];
      forall j | 0 <= j < |q| - 1 ensures HasDeleter(d, q[j], q[j + 1]) {
        assert q[j] == p[i + j] && q[j + 1] == p[i + j + 1];
        assert HasDeleter(d, p[i + j], p[i + j + 1]);
      }
      assert IsCycle(d, q);
    }
  }

  /** A history is acyclic if and only if IsDeletedLocked returns for every ref, however the
      deletions are dated; and then it returns IsDeleted. */
  lemma AcyclicIffReturns(d: Deletes)
    ensures Acyclic(d) <==> forall d', x :: Arranges(d, d') ==> Returns(d', x)
    ensures Acyclic(d) ==> forall x, depth: nat :: Eval(d, x, depth).Some? ==> Eval(d, x, depth).value == IsDeleted(d, x)
  {
    AcyclicIff(d);
    CycleIffLasso(d);
    if !Acyclic(d) {
      var x :| LeadsToCycle(d, x);
      ReturnsIff(d, x);
      var d' :| Arranges(d, d') && !Returns(d', x);
    }
    if Acyclic(d) {
      forall d', x | Arranges(d, d') ensures Returns(d', x) { ReturnsIff(d, x); }
      forall x, depth: nat | Eval(d, x, depth).Some? ensures Eval(d, x, depth).value == IsDeleted(d, x) { AnswerIsDeleted(d, x, depth); }
    }
  }

  // ---- Examples -------------------------------------------------------------------------------------

  /** A claim that only deletes itself is never answered. */
  lemma {:induction false} SelfDeletionNeverReturns(x: Ref, t: Time, depth: nat)
    ensures Eval(map[x := [Deletion(x, t)]], x, depth) == None
  {
    if depth > 0 { SelfDeletionNeverReturns(x, t, depth - 1); }
  }

  /** Nor are two claims that delete each other. */
  lemma {:induction false} MutualDeletionNeverReturns(x: Ref, y: Ref, t: Time, depth: nat)
    requires x != y
    ensures var d: Deletes := map[x := [Deletion(y, t)], y := [Deletion(x, t)]]; Eval(d, x, depth) == None && Eval(d, y, depth) == None
  {
    var d: Deletes := map[x := [Deletion(y, t)], y := [Deletion(x, t)]];
    if depth > 0 {
      MutualDeletionNeverReturns(x, y, t, depth - 1);
      assert ListOf(d, x)[0].deleter == y && ListOf(d, y)[0].deleter == x;
    }
  }

  /** A cycle does not always matter: here x deletes itself, but a later claim that stands deletes
      it too and is asked first. There is one answer, and it is returned. */
  lemma CycleThatReturns(x: Ref, z: Ref, t: Time, u: Time, p: Ref -> bool)
    requires x != z
    ensures var d: Deletes := map[x := [Deletion(z, t), Deletion(x, u)]];
            && IsCycle(d, [x, x])
            && (Settles(d, p) <==> forall r :: p(r) <==> r == x)
            && (forall r :: Eval(d, r, 2) == Some(r == x))
  {
    var d: Deletes := map[x := [Deletion(z, t), Deletion(x, u)]];
    assert d[x][0].deleter == z && d[x][1].deleter == x;
    assert HasDeleter(d, x, x) && HasDeleter(d, x, z);
    assert forall r, y :: HasDeleter(d, r, y) <==> r == x && (y == x || y == z);
    assert Settles(d, p) ==> !p(z) && p(x) && forall r :: p(r) ==> r == x;
    assert Eval(d, z, 1) == Some(false);
  }
}
