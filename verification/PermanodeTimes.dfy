/** The cached listings of permanodes by modification time: addBlob, PermanodeModtimeLocked,
    lazySortedPermanodes and reversedCopy of pkg/index/corpus.go. */
module PermanodeTimes {
  import opened Options
  import opened BlobRef
  import opened Sorting
  import opened Claims
  import ClaimMerge
  import opened Deletions

  datatype PnAndTime = PnAndTime(pn: Ref, t: int)

  /** What the listings depend on. The zero time.Time is the instant 0. */
  datatype Snapshot = Snapshot(permanodes: ClaimMerge.Permanodes, deletes: Deletes)

  // ---- The order ---------------------------------------------------------------------------------

  /** byPermanodeTime.Less. */
  predicate ByTime(a: PnAndTime, b: PnAndTime) {
    if a.t == b.t then Less(a.pn, b.pn) else a.t < b.t
  }

  /** sort.Reverse of it. */
  predicate ByTimeReversed(a: PnAndTime, b: PnAndTime) { ByTime(b, a) }

  lemma ByTimeIsOrder()
    ensures IsOrder(ByTime) && IsOrder(ByTimeReversed)
  {
    forall a ensures !ByTime(a, a) { LessIrreflexive(a.pn); }
    forall a, b, c | ByTime(a, b) && ByTime(b, c) ensures ByTime(a, c) {
      if a.t == b.t == c.t { LessTransitive(a.pn, b.pn, c.pn); }
    }
    forall a, b, c | ByTime(a, c) ensures ByTime(a, b) || ByTime(b, c) {
      if a.t == b.t == c.t { LessWeak(a.pn, b.pn, c.pn); }
    }
  }

  // ---- Modification times ------------------------------------------------------------------------

  ghost predicate Counts(d: Deletes, c: Claim)
    requires Acyclic(d)
  {
    !IsDeleted(d, c.ref)
  }

  /** t is the date of the latest claim that is not deleted. */
  ghost predicate IsModtime(claims: seq<Claim>, d: Deletes, t: int)
    requires Acyclic(d)
  {
    && t > 0
    && (exists i :: 0 <= i < |claims| && Counts(d, claims[i]) && claims[i].date == t)
    && (forall i :: 0 <= i < |claims| && Counts(d, claims[i]) ==> claims[i].date <= t)
  }

  /** PermanodeModtimeLocked. */
  method PermanodeModtime(s: Snapshot, pn: Ref) returns (t: int, ok: bool)
    requires Acyclic(s.deletes)
    ensures ok ==> pn in s.permanodes && IsModtime(s.permanodes[pn], s.deletes, t)
    ensures !ok ==> pn !in s.permanodes || forall u :: !IsModtime(s.permanodes[pn], s.deletes, u)
  {
    t := 0;
    if pn !in s.permanodes {
      return 0, false;
    }
    var claims := s.permanodes[pn];
    for i := 0 to |claims|
      invariant t >= 0
      invariant t > 0 ==> exists j :: 0 <= j < i && Counts(s.deletes, claims[j]) && claims[j].date == t
      invariant forall j :: 0 <= j < i && Counts(s.deletes, claims[j]) ==> claims[j].date <= t
    {
      if IsDeleted(s.deletes, claims[i].ref) {
        continue;
      }
      if claims[i].date > t {
        t := claims[i].date;
      }
    }
    ok := t != 0;
  }

  // ---- Listings ----------------------------------------------------------------------------------

  /** The entry belongs in the listing. */
  ghost predicate Listed(s: Snapshot, e: PnAndTime)
    requires Acyclic(s.deletes)
  {
    e.pn in s.permanodes && !IsDeleted(s.deletes, e.pn) && IsModtime(s.permanodes[e.pn], s.deletes, e.t)
  }

  /** l lists every permanode that is not deleted and has a modification time, once. */
  ghost predicate Lists(s: Snapshot, l: seq<PnAndTime>)
    requires Acyclic(s.deletes)
  {
    NoRepeats(l) && forall e :: e in l <==> Listed(s, e)
  }

  /** Oldest first, or newest first; at equal times no permanode comes before one that is Less, or
      behind one that is. */
  ghost predicate InTimeOrder(l: seq<PnAndTime>, reverse: bool) {
    forall i, j :: 0 <= i < j < |l| ==>
      if reverse then l[i].t >= l[j].t && (l[i].t == l[j].t ==> !Less(l[i].pn, l[j].pn))
      else l[i].t <= l[j].t && (l[i].t == l[j].t ==> !Less(l[j].pn, l[i].pn))
  }

  lemma SortedInTimeOrder(l: seq<PnAndTime>)
    ensures Sorted(l, ByTime) <==> InTimeOrder(l, false)
    ensures Sorted(l, ByTimeReversed) <==> InTimeOrder(l, true)
  {
  }

  /** The listing in the direction asked for. */
  ghost predicate IsAnswer(s: Snapshot, reverse: bool, l: seq<PnAndTime>)
    requires Acyclic(s.deletes)
  {
    Lists(s, l) && InTimeOrder(l, reverse)
  }

  function Reversed<T>(l: seq<T>): (r: seq<T>)
    ensures |r| == |l| && forall i :: 0 <= i < |l| ==> r[i] == l[|l| - 1 - i]
  {
    seq(|l|, i requires 0 <= i < |l| => l[|l| - 1 - i])
  }

  lemma ReversedTwice<T>(l: seq<T>)
    ensures Reversed(Reversed(l)) == l
  {
  }

  lemma ReversedSame(s: Snapshot, l: seq<PnAndTime>, reverse: bool)
    requires Acyclic(s.deletes) && IsAnswer(s, reverse, l)
    ensures IsAnswer(s, !reverse, Reversed(l))
  {
    var r := Reversed(l);
    forall i | 0 <= i < |l| ensures l[i] == r[|l| - 1 - i] {}
  }

  /** No two permanodes with the same time are twins, so that nothing ties. */
  ghost predicate NoTies(s: Snapshot)
    requires Acyclic(s.deletes)
  {
    forall e, f :: Listed(s, e) && Listed(s, f) && e != f && e.t == f.t ==> Less(e.pn, f.pn) || Less(f.pn, e.pn)
  }

  lemma ListingStrict(s: Snapshot, l: seq<PnAndTime>)
    requires Acyclic(s.deletes) && IsAnswer(s, false, l) && NoTies(s)
    ensures StrictlySorted(l, ByTime)
  {
    forall i, j | 0 <= i < j < |l| ensures ByTime(l[i], l[j]) {
      assert Listed(s, l[i]) && Listed(s, l[j]) && l[i] != l[j];
    }
  }

  lemma OneListing(s: Snapshot, a: seq<PnAndTime>, b: seq<PnAndTime>)
    requires Acyclic(s.deletes) && IsAnswer(s, false, a) && IsAnswer(s, false, b) && NoTies(s)
    ensures a == b
  {
    SameMembersBag(a, b);
    ListingStrict(s, a);
    ListingStrict(s, b);
    ByTimeIsOrder();
    SortedUnique(a, b, ByTime);
  }

  /** Entries that tie can change places. */
  lemma OtherListing(s: Snapshot, a: seq<PnAndTime>, i: nat, j: nat) returns (b: seq<PnAndTime>)
    requires Acyclic(s.deletes) && IsAnswer(s, false, a) && i < j < |a| && !ByTime(a[i], a[j])
    ensures IsAnswer(s, false, b) && b != a
  {
    b := Swapped(a, i, j);
    ByTimeIsOrder();
    SortedInTimeOrder(a);
    SwapTied(a, i, j, ByTime);
    SortedInTimeOrder(b);
    SwapMembers(a, i, j);
    assert b[i] == a[j] && a[i] != a[j];
  }

  /** There is only one listing, so that what the cache returns is what filtering and sorting from
      scratch returns, if and only if nothing ties. */
  lemma ListingUniqueIff(s: Snapshot, a: seq<PnAndTime>)
    requires Acyclic(s.deletes) && IsAnswer(s, false, a)
    ensures NoTies(s) <==> forall b :: IsAnswer(s, false, b) ==> b == a
  {
    if NoTies(s) {
      forall b | IsAnswer(s, false, b) ensures b == a { OneListing(s, a, b); }
    } else {
      var e, f :| Listed(s, e) && Listed(s, f) && e != f && e.t == f.t && !Less(e.pn, f.pn) && !Less(f.pn, e.pn);
      assert e in a && f in a;
      var i :| 0 <= i < |a| && a[i] == e;
      var j :| 0 <= j < |a| && a[j] == f;
      var b := OtherListing(s, a, if i < j then i else j, if i < j then j else i);
    }
  }

  // ---- The corpus --------------------------------------------------------------------------------

  /** A row of a mutation, decoded. */
  datatype MutationRow = MetaRow(ref: Ref) | ClaimRow(row: ClaimMerge.Row) | OtherRow | BogusRow

  function Metas(rows: seq<MutationRow>): set<Ref> {
    set i | 0 <= i < |rows| && rows[i].MetaRow? :: rows[i].ref
  }

  function ClaimRows(rows: seq<MutationRow>): seq<ClaimMerge.Row> {
    if rows == [] then []
    else
      var k := |rows| - 1;
      if rows[k].ClaimRow? then ClaimRows(rows[..k]) + [rows[k].row] else ClaimRows(rows[..k])
  }

  lemma RowsStep(rows: seq<MutationRow>, i: nat)
    requires i < |rows|
    ensures ClaimRows(rows[..i + 1]) == if rows[i].ClaimRow? then ClaimRows(rows[..i]) + [rows[i].row] else ClaimRows(rows[..i])
    ensures Metas(rows[..i + 1]) == Metas(rows[..i]) + if rows[i].MetaRow? then {rows[i].ref} else {}
  {
    var (a, b) := (rows[..i], rows[..i + 1]);
    assert b[..i] == a && b[i] == rows[i];
    assert forall j :: 0 <= j < i ==> a[j] == b[j];
  }

  /** Row i is bogus, or about a blob that is already known; it stops the work. */
  predicate Stops(blobs: set<Ref>, rows: seq<MutationRow>, i: nat)
    requires i < |rows|
  {
    rows[i].BogusRow? || (rows[i].MetaRow? && rows[i].ref in blobs + Metas(rows[..i]))
  }

  /** The first n rows can be merged, and no more. */
  ghost predicate MergesUpTo(blobs: set<Ref>, rows: seq<MutationRow>, n: nat) {
    && n <= |rows|
    && (forall i: nat :: i < n ==> !Stops(blobs, rows, i))
    && (n < |rows| ==> Stops(blobs, rows, n))
  }

  /** No row is bogus, and each new blob is unknown and comes once. */
  ghost predicate Merges(blobs: set<Ref>, rows: seq<MutationRow>) {
    && (forall i :: 0 <= i < |rows| ==> !rows[i].BogusRow? && (rows[i].MetaRow? ==> rows[i].ref !in blobs))
    && (forall i, j :: 0 <= i < j < |rows| && rows[i].MetaRow? && rows[j].MetaRow? ==> rows[i].ref != rows[j].ref)
  }

  lemma AllMerge(blobs: set<Ref>, rows: seq<MutationRow>)
    ensures Merges(blobs, rows) <==> forall i: nat :: i < |rows| ==> !Stops(blobs, rows, i)
  {
    forall i: nat | i < |rows| && rows[i].MetaRow?
      ensures Stops(blobs, rows, i) <==> rows[i].ref in blobs || exists j :: 0 <= j < i && rows[j].MetaRow? && rows[j].ref == rows[i].ref
    {
      assert forall j :: 0 <= j < i ==> rows[..i][j] == rows[j];
    }
    if forall i: nat :: i < |rows| ==> !Stops(blobs, rows, i) {
      forall i | 0 <= i < |rows| ensures !rows[i].BogusRow? && (rows[i].MetaRow? ==> rows[i].ref !in blobs) { assert !Stops(blobs, rows, i); }
      forall i, j | 0 <= i < j < |rows| && rows[i].MetaRow? && rows[j].MetaRow? ensures rows[i].ref != rows[j].ref { assert !Stops(blobs, rows, j); }
    }
  }

  /** What addBlob works on. */
  datatype State = State(snap: Snapshot, blobs: set<Ref>)

  const EMPTY := State(Snapshot(map[], map[]), {})

  /** The first n rows have been merged, and the deletions of the claims added. */
  ghost predicate MergedRows(s: State, rows: seq<MutationRow>, n: nat, claims: seq<DeleteClaim>, s': State) {
    && n <= |rows| && s'.blobs == s.blobs + Metas(rows[..n])
    && ClaimMerge.Gains(s.snap.permanodes, ClaimRows(rows[..n]), s'.snap.permanodes) && ClaimMerge.ByDate(s'.snap.permanodes)
    && AddsAll(s.snap.deletes, claims, s'.snap.deletes) && NewestFirst(s'.snap.deletes)
  }

  /** addBlob takes s to s': nothing happens for a known blob; otherwise the rows are merged up to the
      first that stops the work, and the deletions only if none does. */
  ghost predicate AddStep(s: State, br: Ref, rows: seq<MutationRow>, deletes: seq<DeleteClaim>, ok: bool, s': State) {
    if br in s.blobs then ok && s' == s
    else exists n :: MergesUpTo(s.blobs, rows, n) && (ok <==> n == |rows|) && MergedRows(s, rows, n, if ok then deletes else [], s')
  }

  /** d' has the deleters of d and those of the claims. */
  ghost predicate AddsAll(d: Deletes, claims: seq<DeleteClaim>, d': Deletes) {
    forall x, y :: HasDeleter(d', x, y) <==> HasDeleter(d, x, y) || Claimed(claims, x, y)
  }

  lemma AddsNone(d: Deletes)
    ensures AddsAll(d, [], d)
  {
    assert forall x, y :: !Claimed([], x, y);
  }

  lemma UpToOnce(blobs: set<Ref>, rows: seq<MutationRow>, n: nat)
    requires MergesUpTo(blobs, rows, n)
    ensures Merges(blobs, rows) <==> n == |rows|
  {
    AllMerge(blobs, rows);
    if n < |rows| { assert Stops(blobs, rows, n); }
  }

  lemma AddsAllStep(d: Deletes, claims: seq<DeleteClaim>, i: nat, d': Deletes, d'': Deletes)
    requires i < |claims| && AddsAll(d, claims[..i], d') && Adds(d', claims[i].target, claims[i].deleter, d'')
    ensures AddsAll(d, claims[..i + 1], d'')
  {
    assert claims[..i + 1] == claims[..i] + [claims[i]];
    forall x, y ensures HasDeleter(d'', x, y) <==> HasDeleter(d, x, y) || Claimed(claims[..i + 1], x, y) {
      ClaimedSnoc(claims[..i], claims[i], x, y);
    }
  }

  class Corpus {
    const claims: ClaimMerge.Corpus
    const deletions: Deletions.Corpus
    var blobs: set<Ref>
    var gen: nat

    ghost predicate Valid()
      reads this, claims, deletions
    {
      !claims.building && ClaimMerge.ByDate(claims.permanodes) && NewestFirst(deletions.deletes)
    }

    function Snap(): Snapshot
      reads claims, deletions
    {
      Snapshot(claims.permanodes, deletions.deletes)
    }

    constructor ()
      ensures Valid() && fresh(claims) && fresh(deletions) && gen == 0 && blobs == {}
      ensures Snap() == Snapshot(map[], map[])
    {
      claims := new ClaimMerge.Corpus(false);
      deletions := new Deletions.Corpus();
      blobs, gen := {}, 0;
    }

    function Now(): State
      reads this, claims, deletions
    {
      State(Snap(), blobs)
    }

    /** The merge functions of addBlob; rows come in any order and a bogus one stops the work. */
    method MergeRows(rows: seq<MutationRow>) returns (ok: bool, ghost n: nat)
      requires Valid()
      modifies this`blobs, claims
      ensures Valid() && MergesUpTo(old(blobs), rows, n) && (ok <==> n == |rows|)
      ensures blobs == old(blobs) + Metas(rows[..n])
      ensures ClaimMerge.Gains(old(claims.permanodes), ClaimRows(rows[..n]), claims.permanodes)
    {
      ClaimMerge.GainsNone(claims.permanodes);
      n := 0;
      for i := 0 to |rows|
        invariant Valid() && n == i && blobs == old(blobs) + Metas(rows[..i])
        invariant forall j: nat :: j < i ==> !Stops(old(blobs), rows, j)
        invariant ClaimMerge.Gains(old(claims.permanodes), ClaimRows(rows[..i]), claims.permanodes)
      {
        RowsStep(rows, i);
        match rows[i] {
          case MetaRow(r) =>
            if r in blobs { return false, n; }
            blobs := blobs + {r};
          case ClaimRow(row) =>
            ghost var before := claims.permanodes;
            claims.MergeClaimRow(row);
            ClaimMerge.GainsSnoc(old(claims.permanodes), ClaimRows(rows[..i]), before, row, claims.permanodes);
          case OtherRow =>
          case BogusRow => return false, n;
        }
        n := n + 1;
      }
      ok := true;
    }

    /** addBlob: succeeds exactly when the blob is known or all rows can be merged, and the generation
        moves whenever anything else may have. */
    method AddBlob(br: Ref, rows: seq<MutationRow>, deletes: seq<DeleteClaim>) returns (ok: bool)
      requires Valid()
      modifies this, claims, deletions
      ensures Valid()
      ensures gen == if br in old(blobs) then old(gen) else old(gen) + 1
      ensures AddStep(old(Now()), br, rows, deletes, ok, Now())
      ensures ok <==> br in old(blobs) || Merges(old(blobs), rows)
    {
      if br in blobs {
        return true;
      }
      gen := gen + 1;
      ghost var n;
      ok, n := MergeRows(rows);
      if ok {
        UpdateAll(deletes);
      } else {
        AddsNone(deletions.deletes);
      }
      assert MergedRows(old(Now()), rows, n, if ok then deletes else [], Now());
      UpToOnce(old(blobs), rows, n);
    }

    method UpdateAll(deletes: seq<DeleteClaim>)
      requires NewestFirst(deletions.deletes)
      modifies deletions
      ensures NewestFirst(deletions.deletes) && AddsAll(old(deletions.deletes), deletes, deletions.deletes)
    {
      for i := 0 to |deletes|
        invariant NewestFirst(deletions.deletes) && AddsAll(old(deletions.deletes), deletes[..i], deletions.deletes)
      {
        ghost var before := deletions.deletes;
        deletions.UpdateDeletes(deletes[i]);
        AddsAllStep(old(deletions.deletes), deletes, i, before, deletions.deletes);
      }
      assert deletes[..|deletes|] == deletes;
    }
  }

  /** reversedCopy. */
  method ReversedCopy(original: seq<PnAndTime>) returns (reversed: seq<PnAndTime>)
    ensures reversed == Reversed(original)
  {
    var l := |original|;
    var a := new PnAndTime[l](i => PnAndTime(Zero, 0));
    for k := 0 to l
      invariant forall j :: 0 <= j < k ==> a[l - 1 - j] == original[j]
    {
      a[l - 1 - k] := original[k];
    }
    forall i | 0 <= i < l ensures a[i] == original[l - 1 - i] {
      assert a[l - 1 - (l - 1 - i)] == original[l - 1 - i];
    }
    reversed := a[..];
  }

  /** The permanodes that are not deleted, with their times, in the map's order. */
  method Collect(s: Snapshot) returns (pns: seq<PnAndTime>)
    requires Acyclic(s.deletes)
    ensures Lists(s, pns)
  {
    pns := [];
    var todo := s.permanodes.Keys;
    while todo != {}
      invariant todo <= s.permanodes.Keys
      invariant NoRepeats(pns)
      invariant forall e :: e in pns <==> Listed(s, e) && e.pn !in todo
      decreases |todo|
    {
      var pn :| pn in todo;
      todo := todo - {pn};
      if IsDeleted(s.deletes, pn) {
        continue;
      }
      var t, ok := PermanodeModtime(s, pn);
      if ok {
        pns := pns + [PnAndTime(pn, t)];
      }
    }
  }

  class LazySortedPermanodes {
    const c: Corpus
    var sortedCache: Option<seq<PnAndTime>>
    var sortedCacheReversed: Option<seq<PnAndTime>>
    var ofGen: nat

    /** Caches of the current generation are right, and mirror images of each other. */
    ghost predicate Valid()
      reads this, c, c.claims, c.deletions
    {
      ofGen <= c.gen && (ofGen == c.gen && Acyclic(c.Snap().deletes) ==> CachesRight(c.Snap(), sortedCache, sortedCacheReversed))
    }

    constructor (c: Corpus)
      ensures this.c == c && Valid() && sortedCache.None? && sortedCacheReversed.None?
    {
      this.c := c;
      sortedCache, sortedCacheReversed, ofGen := None, None, 0;
    }

    /** sorted: from a cache, by reversing the other one, or from scratch. */
    method SortedPermanodes(reverse: bool) returns (r: seq<PnAndTime>)
      requires Valid() && Acyclic(c.Snap().deletes)
      modifies this
      ensures Valid() && ofGen == c.gen
      ensures (if reverse then sortedCacheReversed else sortedCache) == Some(r)
      ensures IsAnswer(c.Snap(), reverse, r)
    {
      var s := c.Snap();
      if ofGen == c.gen {
        if reverse {
          if sortedCacheReversed.Some? {
            return sortedCacheReversed.value;
          }
          if sortedCache.Some? {
            r := ReversedCopy(sortedCache.value);
            ReversedSame(s, sortedCache.value, false);
            sortedCacheReversed := Some(r);
            return;
          }
        }
        if !reverse {
          if sortedCache.Some? {
            return sortedCache.value;
          }
          if sortedCacheReversed.Some? {
            r := ReversedCopy(sortedCacheReversed.value);
            ReversedTwice(sortedCacheReversed.value);
            ReversedSame(s, sortedCacheReversed.value, true);
            sortedCache := Some(r);
            return;
          }
        }
      }
      r := Rebuild(s, reverse);
      if reverse {
        sortedCache, sortedCacheReversed := None, Some(r);
      } else {
        sortedCache, sortedCacheReversed := Some(r), None;
      }
      ofGen := c.gen;
    }
  }

  ghost predicate CachesRight(s: Snapshot, fwd: Option<seq<PnAndTime>>, rev: Option<seq<PnAndTime>>)
    requires Acyclic(s.deletes)
  {
    && (fwd.Some? ==> IsAnswer(s, false, fwd.value))
    && (rev.Some? ==> IsAnswer(s, true, rev.value))
    && (fwd.Some? && rev.Some? ==> rev.value == Reversed(fwd.value))
  }

  /** Filter and sort from scratch. */
  method Rebuild(s: Snapshot, reverse: bool) returns (r: seq<PnAndTime>)
    requires Acyclic(s.deletes)
    ensures IsAnswer(s, reverse, r)
  {
    var pns := Collect(s);
    ByTimeIsOrder();
    if reverse {
      r := Sort(pns, ByTimeReversed);
    } else {
      r := Sort(pns, ByTime);
    }
    SameBagMembers(pns, r);
    SortedInTimeOrder(r);
  }

  // ---- Whole runs --------------------------------------------------------------------------------

  datatype Call =
    | Add(br: Ref, rows: seq<MutationRow>, deletes: seq<DeleteClaim>)
    | List(reverse: bool)

  /** What a call returned. */
  datatype Answer = Added(ok: bool) | Listing(list: seq<PnAndTime>)

  /** The call takes the corpus from s to s' and returns a. A listing is that of the corpus as it is,
      in the direction asked for. */
  ghost predicate CallStep(s: State, call: Call, a: Answer, s': State) {
    match call
    case Add(br, rows, deletes) => a.Added? && AddStep(s, br, rows, deletes, a.ok, s')
    case List(reverse) => a.Listing? && s' == s && Acyclic(s.snap.deletes) && IsAnswer(s.snap, reverse, a.list)
  }

  /** The corpus starts empty and goes through these states. */
  ghost predicate IsRun(calls: seq<Call>, answers: seq<Answer>, states: seq<State>) {
    && |answers| == |calls| && |states| == |calls| + 1 && states[0] == EMPTY
    && forall i :: 0 <= i < |calls| ==> CallStep(states[i], calls[i], answers[i], states[i + 1])
  }

  lemma RunMore(calls: seq<Call>, i: nat, answers: seq<Answer>, states: seq<State>, a: Answer, s: State)
    requires i < |calls| && IsRun(calls[..i], answers, states) && CallStep(states[i], calls[i], a, s)
    ensures IsRun(calls[..i + 1], answers + [a], states + [s])
  {
    var (answers', states') := (answers + [a], states + [s]);
    forall j | 0 <= j < i + 1 ensures CallStep(states'[j], calls[..i + 1][j], answers'[j], states'[j + 1]) {
      if j < i { assert CallStep(states[j], calls[..i][j], answers[j], states[j + 1]); }
    }
  }

  lemma AddDescends(s: State, br: Ref, rows: seq<MutationRow>, deletes: seq<DeleteClaim>, ok: bool, s': State, rank: Ref -> nat)
    requires Descends(s.snap.deletes, rank) && ClaimsDescend(deletes, rank) && AddStep(s, br, rows, deletes, ok, s')
    ensures Descends(s'.snap.deletes, rank)
  {
    assert forall x, y :: !Claimed([], x, y);
  }

  /** Any interleaving of additions and listings over an acyclic history, from an empty corpus on:
      every addition does to the corpus what it should, and every listing is that of the corpus as
      the additions before it have left it. */
  method Run(calls: seq<Call>, ghost rank: Ref -> nat) returns (answers: seq<Answer>, ghost states: seq<State>)
    requires forall i :: 0 <= i < |calls| && calls[i].Add? ==> ClaimsDescend(calls[i].deletes, rank)
    ensures IsRun(calls, answers, states)
  {
    var c := new Corpus();
    var lsp := new LazySortedPermanodes(c);
    answers, states := [], [c.Now()];
    for i := 0 to |calls|
      invariant c.Valid() && lsp.Valid() && lsp.c == c && fresh(c) && fresh(lsp) && fresh(c.claims) && fresh(c.deletions)
      invariant Descends(c.Snap().deletes, rank)
      invariant IsRun(calls[..i], answers, states) && states[i] == c.Now()
    {
      ghost var before := c.Now();
      var a;
      match calls[i] {
        case Add(br, rows, deletes) =>
          var ok := c.AddBlob(br, rows, deletes);
          AddDescends(before, br, rows, deletes, ok, c.Now(), rank);
          a := Added(ok);
        case List(reverse) =>
          var r := lsp.SortedPermanodes(reverse);
          a := Listing(r);
      }
      RunMore(calls, i, answers, states, a, c.Now());
      answers, states := answers + [a], states + [c.Now()];
    }
    assert calls[..|calls|] == calls;
  }
}
