/** mergedEnumerate of pkg/blobserver/mergedenum.go: a k-way merge of sorted sources. */
module MergedEnumeration {
  import opened Collections
  import opened BlobRef
  import opened Enumeration

  type Sources = seq<seq<SizedRef>>

  /** Every source is an increasing list of valid refs. */
  ghost predicate Mergeable(sources: Sources) {
    && (forall i :: 0 <= i < |sources| ==> Increasing(sources[i]))
    && (forall i, k :: 0 <= i < |sources| && 0 <= k < |sources[i]| ==> Valid(sources[i][k].ref))
  }

  /** x is an entry of some source, and no earlier source has its ref. */
  ghost predicate FromEarliest(sources: Sources, x: SizedRef) {
    exists i, k :: EarliestAt(sources, x, i, k)
  }

  ghost predicate EarliestAt(sources: Sources, x: SizedRef, i: nat, k: nat) {
    && i < |sources| && k < |sources[i]| && sources[i][k] == x
    && forall j :: 0 <= j < i ==> !HasRef(sources[j], x.ref)
  }

  // ---- The order of the output ----------------------------------------------------------------------

  /** Some source has r, and neither it nor an earlier one has r'. */
  ghost predicate Sooner(sources: Sources, r: Ref, r': Ref) {
    exists i :: SoonerAt(sources, r, r', i)
  }

  ghost predicate SoonerAt(sources: Sources, r: Ref, r': Ref, i: int) {
    0 <= i < |sources| && HasRef(sources[i], r) && forall j :: 0 <= j <= i ==> !HasRef(sources[j], r')
  }

  /** r goes before r': it is Less or, for twins, which Less does not order, found sooner. */
  ghost predicate Precedes(sources: Sources, r: Ref, r': Ref) {
    Less(r, r') || (r != r' && !Less(r', r) && Sooner(sources, r, r'))
  }

  lemma SoonerOnce(sources: Sources, r: Ref, r': Ref)
    requires Sooner(sources, r, r')
    ensures !Sooner(sources, r', r)
  {
    var i :| SoonerAt(sources, r, r', i);
    forall j ensures !SoonerAt(sources, r', r, j) {
    }
  }

  lemma LessOnce(a: Ref, b: Ref)
    requires Less(a, b)
    ensures a != b && !Less(b, a)
  {
    LessIrreflexive(a);
    if Less(b, a) { LessTransitive(a, b, a); }
  }

  lemma PrecedesOnce(sources: Sources, r: Ref, r': Ref)
    requires Precedes(sources, r, r')
    ensures r != r' && !Less(r', r) && !Precedes(sources, r', r)
  {
    if Less(r, r') { LessOnce(r, r'); } else { SoonerOnce(sources, r, r'); }
  }

  /** What is Less than nothing before it is Less than what is after it. */
  lemma PrecedesThenLess(sources: Sources, a: Ref, b: Ref, c: Ref)
    requires Precedes(sources, a, b) && Less(b, c)
    ensures Less(a, c)
  {
    if Less(a, b) { LessTransitive(a, b, c); } else { LessWeak(b, a, c); }
  }

  ghost predicate After(sources: Sources, dest: seq<SizedRef>, r: Ref) {
    forall n :: 0 <= n < |dest| ==> Precedes(sources, dest[n].ref, r)
  }

  ghost predicate InOrder(sources: Sources, dest: seq<SizedRef>) {
    forall m, n :: 0 <= m < n < |dest| ==> Precedes(sources, dest[m].ref, dest[n].ref)
  }

  lemma AfterLess(sources: Sources, dest: seq<SizedRef>, r: Ref, r': Ref)
    requires After(sources, dest, r) && Less(r, r')
    ensures After(sources, dest, r') && forall n :: 0 <= n < |dest| ==> Less(dest[n].ref, r')
  {
    forall n | 0 <= n < |dest| ensures Less(dest[n].ref, r') { PrecedesThenLess(sources, dest[n].ref, r, r'); }
  }

  lemma AfterFresh(sources: Sources, dest: seq<SizedRef>, r: Ref)
    requires After(sources, dest, r)
    ensures !HasRef(dest, r)
  {
    forall n | 0 <= n < |dest| ensures dest[n].ref != r { PrecedesOnce(sources, dest[n].ref, r); }
  }

  /** dest is the duplicate-free union of the sources, in order and cut at limit. */
  ghost predicate IsFirst(sources: Sources, limit: nat, dest: seq<SizedRef>) {
    && InOrder(sources, dest) && |dest| <= limit
    && (forall n :: 0 <= n < |dest| ==> FromEarliest(sources, dest[n]))
    && (forall i, k :: 0 <= i < |sources| && 0 <= k < |sources[i]| ==>
          HasRef(dest, sources[i][k].ref) || (|dest| == limit && After(sources, dest, sources[i][k].ref)))
  }

  /** Twins in two sources are both sent, the first source's first, although neither is Less. */
  lemma TwinsBothSent(x: SizedRef, y: SizedRef)
    requires Twins(x.ref, y.ref)
    ensures IsFirst([[x], [y]], 2, [x, y]) && !Increasing([x, y])
  {
    var (sources, dest) := ([[x], [y]], [x, y]);
    assert dest[0] == x && dest[1] == y && sources[0][0] == x && sources[1][0] == y;
    LessIrreflexive(x.ref);
    LessIrreflexive(y.ref);
    assert !Less(x.ref, y.ref) && !Less(y.ref, x.ref);
    assert SoonerAt(sources, x.ref, y.ref, 0);
    assert EarliestAt(sources, x, 0, 0) && EarliestAt(sources, y, 1, 0);
    assert HasRef(dest, x.ref) && HasRef(dest, y.ref);
  }

  // ---- One round ------------------------------------------------------------------------------------

  ghost predicate IsLast(dest: seq<SizedRef>, r: Ref) { dest != [] && r == dest[|dest| - 1].ref }

  /** The refs before pos[k] of source k are sent; each of the others is the last one sent or comes
      after all sent. */
  ghost predicate Merging(sources: Sources, pos: seq<nat>, dest: seq<SizedRef>) {
    var positions := |pos| == |sources| && forall k :: 0 <= k < |pos| ==> pos[k] <= |sources[k]|;
    var output := InOrder(sources, dest) && forall n :: 0 <= n < |dest| ==> FromEarliest(sources, dest[n]);
    var consumed := positions && forall k, m :: 0 <= k < |sources| && 0 <= m < pos[k] ==> HasRef(dest, sources[k][m].ref);
    var left := positions && forall k, m :: 0 <= k < |sources| && pos[k] <= m < |sources[k]| ==>
                  IsLast(dest, sources[k][m].ref) || After(sources, dest, sources[k][m].ref);
    output && consumed && left
  }

  predicate TooLow(dest: seq<SizedRef>, r: Ref) {
    dest != [] && (r == dest[|dest| - 1].ref || Less(r, dest[|dest| - 1].ref))
  }

  lemma NotBelowLast(sources: Sources, dest: seq<SizedRef>, r: Ref)
    requires After(sources, dest, r)
    ensures !TooLow(dest, r)
  {
    if dest != [] { PrecedesOnce(sources, dest[|dest| - 1].ref, r); }
  }

  lemma DropOne(sources: Sources, pos: seq<nat>, dest: seq<SizedRef>, k: nat)
    requires k < |pos| == |sources| && pos[k] < |sources[k]| && TooLow(dest, sources[k][pos[k]].ref)
    ensures Merging(sources, pos, dest) ==> Merging(sources, pos[k := pos[k] + 1], dest)
  {
    var r := sources[k][pos[k]].ref;
    if Merging(sources, pos, dest) {
      if After(sources, dest, r) { NotBelowLast(sources, dest, r); }
      assert IsLast(dest, r);
      assert HasRef(dest, r);
    }
  }

  /** Source k has been cleared of what was sent: it is exhausted or its head comes after. */
  ghost predicate Cleared(sources: Sources, pos: seq<nat>, dest: seq<SizedRef>, k: nat)
    requires k < |pos| == |sources|
  {
    pos[k] < |sources[k]| ==> After(sources, dest, sources[k][pos[k]].ref)
  }

  /** The scan has visited the first idx sources; no head is Less than that of `low`, and it is Less
      than the heads of earlier sources. */
  ghost predicate Scanned(sources: Sources, pos: seq<nat>, dest: seq<SizedRef>, idx: nat, low: int) {
    && |pos| == |sources| && idx <= |sources| && -1 <= low < idx
    && (forall k :: 0 <= k < idx ==> Cleared(sources, pos, dest, k))
    && (low == -1 ==> forall k :: 0 <= k < idx ==> pos[k] >= |sources[k]|)
    && (low >= 0 ==>
          && pos[low] < |sources[low]|
          && (forall k :: 0 <= k < idx && pos[k] < |sources[k]| ==>
                !Less(sources[k][pos[k]].ref, sources[low][pos[low]].ref))
          && (forall k :: 0 <= k < low && pos[k] < |sources[k]| ==>
                Less(sources[low][pos[low]].ref, sources[k][pos[k]].ref)))
  }

  lemma NotTooLow(sources: Sources, pos: seq<nat>, dest: seq<SizedRef>, k: nat)
    requires Merging(sources, pos, dest) && k < |sources|
    requires pos[k] < |sources[k]| ==> !TooLow(dest, sources[k][pos[k]].ref)
    ensures Cleared(sources, pos, dest, k)
  {
  }

  lemma ScanOne(sources: Sources, pos: seq<nat>, dest: seq<SizedRef>, idx: nat, low: int)
    requires Scanned(sources, pos, dest, idx, low) && idx < |sources|
    requires Cleared(sources, pos, dest, idx)
    ensures var low' := if pos[idx] >= |sources[idx]| then low
                        else if low == -1 || Less(sources[idx][pos[idx]].ref, sources[low][pos[low]].ref) then idx
                        else low;
            Scanned(sources, pos, dest, idx + 1, low')
  {
    if pos[idx] < |sources[idx]| {
      var r := sources[idx][pos[idx]].ref;
      LessIrreflexive(r);
      if low >= 0 && Less(r, sources[low][pos[low]].ref) {
        forall k | 0 <= k < idx && pos[k] < |sources[k]|
          ensures Less(r, sources[k][pos[k]].ref) && !Less(sources[k][pos[k]].ref, r)
        {
          LessWeak(r, sources[k][pos[k]].ref, sources[low][pos[low]].ref);
          LessOnce(r, sources[k][pos[k]].ref);
        }
      }
    }
  }

  lemma HasRefGrows(dest: seq<SizedRef>, x: SizedRef, r: Ref)
    ensures HasRef(dest, r) ==> HasRef(dest + [x], r)
    ensures HasRef(dest + [x], x.ref)
  {
    var dest' := dest + [x];
    assert dest'[|dest|] == x;
    assert forall i :: 0 <= i < |dest| ==> dest'[i] == dest[i];
  }

  /** A scan over all sources of a merge that found the head of source low. */
  ghost predicate Found(sources: Sources, pos: seq<nat>, dest: seq<SizedRef>, low: nat) {
    Mergeable(sources) && Merging(sources, pos, dest) && Scanned(sources, pos, dest, |sources|, low)
  }

  /** What is left comes after all sent. */
  lemma LeftAfter(sources: Sources, pos: seq<nat>, dest: seq<SizedRef>, low: nat, k: nat, m: nat)
    requires Found(sources, pos, dest, low) && k < |sources| && pos[k] <= m < |sources[k]|
    ensures After(sources, dest, sources[k][m].ref)
  {
    assert Cleared(sources, pos, dest, k);
    if m > pos[k] { AfterLess(sources, dest, sources[k][pos[k]].ref, sources[k][m].ref); }
  }

  /** A ref that comes after all sent is in no source before its position. */
  lemma NotPassed(sources: Sources, pos: seq<nat>, dest: seq<SizedRef>, r: Ref, j: nat, m: nat)
    requires Merging(sources, pos, dest) && After(sources, dest, r) && j < |sources| && m < pos[j]
    ensures sources[j][m].ref != r
  {
    AfterFresh(sources, dest, r);
    assert HasRef(dest, sources[j][m].ref);
  }

  /** What is left of an earlier source, or behind x in its own, is greater than x. */
  lemma BehindLess(sources: Sources, pos: seq<nat>, dest: seq<SizedRef>, low: nat, j: nat, m: nat)
    requires Found(sources, pos, dest, low) && j <= low && pos[j] <= m < |sources[j]| && (j == low ==> m > pos[j])
    ensures Less(sources[low][pos[low]].ref, sources[j][m].ref)
  {
    assert Increasing(sources[j]);
    if j < low && m > pos[j] {
      LessTransitive(sources[low][pos[low]].ref, sources[j][pos[j]].ref, sources[j][m].ref);
    }
  }

  /** A ref left that x is not Less than is in no source up to low, except x itself. */
  lemma NotSooner(sources: Sources, pos: seq<nat>, dest: seq<SizedRef>, low: nat, r: Ref, j: nat)
    requires Found(sources, pos, dest, low) && After(sources, dest, r) && j <= low
    requires !Less(sources[low][pos[low]].ref, r) && (j == low ==> r != sources[low][pos[low]].ref)
    ensures !HasRef(sources[j], r)
  {
    forall m | 0 <= m < |sources[j]| ensures sources[j][m].ref != r {
      if m < pos[j] {
        NotPassed(sources, pos, dest, r, j, m);
      } else if j < low || m > pos[j] {
        BehindLess(sources, pos, dest, low, j, m);
      }
    }
  }

  lemma LowestIsEarliest(sources: Sources, pos: seq<nat>, dest: seq<SizedRef>, low: nat)
    requires Found(sources, pos, dest, low)
    ensures FromEarliest(sources, sources[low][pos[low]])
  {
    var x := sources[low][pos[low]];
    LeftAfter(sources, pos, dest, low, low, pos[low]);
    LessIrreflexive(x.ref);
    forall j | 0 <= j < low ensures !HasRef(sources[j], x.ref) { NotSooner(sources, pos, dest, low, x.ref, j); }
    assert EarliestAt(sources, x, low, pos[low]);
  }

  /** The head of low goes before everything else that is left. */
  lemma LowestPrecedes(sources: Sources, pos: seq<nat>, dest: seq<SizedRef>, low: nat, k: nat, m: nat)
    requires Found(sources, pos, dest, low) && k < |sources| && pos[k] <= m < |sources[k]|
    ensures var (x, r) := (sources[low][pos[low]].ref, sources[k][m].ref); r == x || Precedes(sources, x, r)
  {
    var (x, head, r) := (sources[low][pos[low]].ref, sources[k][pos[k]].ref, sources[k][m].ref);
    if m > pos[k] {
      assert Increasing(sources[k]) && Less(head, r);
      LessWeak(head, x, r);
    } else if r != x && !Less(x, r) {
      LeftAfter(sources, pos, dest, low, k, m);
      forall j | 0 <= j <= low ensures !HasRef(sources[j], r) { NotSooner(sources, pos, dest, low, r, j); }
      assert sources[low][pos[low]].ref == x;
      assert SoonerAt(sources, x, r, low);
    }
  }

  lemma AfterGrows(sources: Sources, dest: seq<SizedRef>, x: SizedRef, r: Ref)
    requires After(sources, dest, r) && (r == x.ref || Precedes(sources, x.ref, r))
    ensures IsLast(dest + [x], r) || After(sources, dest + [x], r)
  {
    var dest' := dest + [x];
    assert forall i :: 0 <= i < |dest'| ==> dest'[i] == if i < |dest| then dest[i] else x;
  }

  lemma InOrderGrows(sources: Sources, dest: seq<SizedRef>, x: SizedRef)
    requires InOrder(sources, dest) && After(sources, dest, x.ref)
    ensures InOrder(sources, dest + [x])
  {
    var dest' := dest + [x];
    assert forall i :: 0 <= i < |dest'| ==> dest'[i] == if i < |dest| then dest[i] else x;
  }

  lemma SendLowest(sources: Sources, pos: seq<nat>, dest: seq<SizedRef>, low: nat)
    requires Found(sources, pos, dest, low)
    ensures Merging(sources, pos, dest + [sources[low][pos[low]]])
  {
    var x := sources[low][pos[low]];
    var dest' := dest + [x];
    LeftAfter(sources, pos, dest, low, low, pos[low]);
    InOrderGrows(sources, dest, x);
    LowestIsEarliest(sources, pos, dest, low);
    assert forall n :: 0 <= n < |dest'| ==> dest'[n] == if n < |dest| then dest[n] else x;
    forall k, m | 0 <= k < |sources| && 0 <= m < pos[k] ensures HasRef(dest', sources[k][m].ref) {
      HasRefGrows(dest, x, sources[k][m].ref);
    }
    forall k, m | 0 <= k < |sources| && pos[k] <= m < |sources[k]|
      ensures IsLast(dest', sources[k][m].ref) || After(sources, dest', sources[k][m].ref)
    {
      LeftAfter(sources, pos, dest, low, k, m);
      LowestPrecedes(sources, pos, dest, low, k, m);
      AfterGrows(sources, dest, x, sources[k][m].ref);
    }
  }

  /** The merge ends with limit entries sent or with every source exhausted. */
  lemma MergeEnds(sources: Sources, pos: seq<nat>, dest: seq<SizedRef>, limit: nat)
    requires Merging(sources, pos, dest) && |dest| <= limit
    requires |dest| == limit || forall k :: 0 <= k < |sources| ==> pos[k] == |sources[k]|
    ensures IsFirst(sources, limit, dest)
  {
    forall i, k | 0 <= i < |sources| && 0 <= k < |sources[i]|
      ensures HasRef(dest, sources[i][k].ref) || (|dest| == limit && After(sources, dest, sources[i][k].ref))
    {
      if k >= pos[i] && IsLast(dest, sources[i][k].ref) { assert HasRef(dest, sources[i][k].ref); }
    }
  }

  // ---- Cutting each source at limit loses nothing ------------------------------------------------

  ghost predicate IsCut(sources: Sources, cut: Sources, limit: nat) {
    |cut| == |sources| && forall i :: 0 <= i < |sources| ==> cut[i] == Cut(sources[i], limit)
  }

  /** dest is ordered in a way that Less never contradicts, and without repetition. */
  ghost predicate Consistent(dest: seq<SizedRef>) {
    forall m, n :: 0 <= m < n < |dest| ==> dest[m].ref != dest[n].ref && !Less(dest[n].ref, dest[m].ref)
  }

  lemma InOrderConsistent(sources: Sources, dest: seq<SizedRef>)
    requires InOrder(sources, dest)
    ensures Consistent(dest)
  {
    forall m, n | 0 <= m < n < |dest| ensures dest[m].ref != dest[n].ref && !Less(dest[n].ref, dest[m].ref) {
      PrecedesOnce(sources, dest[m].ref, dest[n].ref);
    }
  }

  /** A sorted list whose refs all occur in dest is no longer than dest. */
  lemma {:induction false} Pigeonhole(s: seq<SizedRef>, dest: seq<SizedRef>)
    requires Increasing(s) && Consistent(dest) && forall k :: 0 <= k < |s| ==> HasRef(dest, s[k].ref)
    ensures |s| <= |dest|
  {
    if s != [] {
      var k := |s| - 1;
      var n :| 0 <= n < |dest| && dest[n].ref == s[k].ref;
      forall j | 0 <= j < k ensures HasRef(dest[..n], s[..k][j].ref) { EarlierIn(s, dest, j, k, n); }
      Pigeonhole(s[..k], dest[..n]);
    }
  }

  lemma EarlierIn(s: seq<SizedRef>, dest: seq<SizedRef>, j: nat, k: nat, n: nat)
    requires Increasing(s) && Consistent(dest) && j < k < |s| && n < |dest| && dest[n].ref == s[k].ref && HasRef(dest, s[j].ref)
    ensures HasRef(dest[..n], s[j].ref)
  {
    var m :| 0 <= m < |dest| && dest[m].ref == s[j].ref;
    LessOnce(s[j].ref, s[k].ref);
    assert m < n;
    assert dest[..n][m].ref == s[j].ref;
  }

  /** When as many refs of s occur in dest as dest has, the last of s is the last of dest. */
  lemma LastCovered(s: seq<SizedRef>, dest: seq<SizedRef>)
    requires Increasing(s) && Consistent(dest) && forall k :: 0 <= k < |s| ==> HasRef(dest, s[k].ref)
    requires |s| == |dest| > 0
    ensures dest[|dest| - 1].ref == s[|s| - 1].ref
  {
    var k := |s| - 1;
    var n :| 0 <= n < |dest| && dest[n].ref == s[k].ref;
    if n < k {
      var front := dest[..n + 1];
      forall j | 0 <= j < |s| ensures HasRef(front, s[j].ref) {
        if j < k {
          EarlierIn(s, dest, j, k, n);
          var m :| 0 <= m < n && dest[..n][m].ref == s[j].ref;
          assert front[m].ref == s[j].ref;
        } else {
          assert front[n].ref == s[k].ref;
        }
      }
      Pigeonhole(s, front);
    }
  }

  /** An entry that a full-length cut leaves out has limit smaller entries before it. */
  lemma LeftOut(sources: Sources, cut: Sources, limit: nat, dest: seq<SizedRef>, i: nat, k: nat)
    requires Mergeable(sources) && IsCut(sources, cut, limit) && IsFirst(cut, limit, dest)
    requires i < |sources| && limit <= k < |sources[i]|
    ensures |dest| == limit && forall n :: 0 <= n < |dest| ==> Less(dest[n].ref, sources[i][k].ref)
  {
    var (c, r) := (cut[i], sources[i][k].ref);
    assert Increasing(sources[i]);
    assert forall m :: 0 <= m < |c| ==> c[m] == sources[i][m];
    if m :| 0 <= m < |c| && !HasRef(dest, c[m].ref) {
      assert |dest| == limit && After(cut, dest, cut[i][m].ref);
      AfterLess(cut, dest, c[m].ref, r);
    } else {
      InOrderConsistent(cut, dest);
      Pigeonhole(c, dest);
      if limit > 0 {
        LastCovered(c, dest);
        BeforeLast(cut, dest, r);
      }
    }
  }

  lemma BeforeLast(sources: Sources, dest: seq<SizedRef>, r: Ref)
    requires InOrder(sources, dest) && dest != [] && Less(dest[|dest| - 1].ref, r)
    ensures forall n :: 0 <= n < |dest| ==> Less(dest[n].ref, r)
  {
    forall n | 0 <= n < |dest| ensures Less(dest[n].ref, r) {
      if n < |dest| - 1 { PrecedesThenLess(sources, dest[n].ref, dest[|dest| - 1].ref, r); }
    }
  }

  lemma CutHas(s: seq<SizedRef>, limit: nat, r: Ref)
    ensures HasRef(Cut(s, limit), r) ==> HasRef(s, r)
  {
    var c := Cut(s, limit);
    assert forall m :: 0 <= m < |c| ==> c[m] == s[m];
  }

  /** A ref that a source has only beyond the cut is greater than all sent. */
  lemma BeyondCut(sources: Sources, cut: Sources, limit: nat, dest: seq<SizedRef>, j: nat, r: Ref)
    requires Mergeable(sources) && IsCut(sources, cut, limit) && IsFirst(cut, limit, dest)
    requires j < |cut| && HasRef(sources[j], r) && !HasRef(cut[j], r)
    ensures |dest| == limit && forall n :: 0 <= n < |dest| ==> Less(dest[n].ref, r)
  {
    var m :| 0 <= m < |sources[j]| && sources[j][m].ref == r;
    assert forall n :: 0 <= n < |cut[j]| ==> cut[j][n] == sources[j][n] && cut[j][n].ref != r;
    assert m >= limit;
    LeftOut(sources, cut, limit, dest, j, m);
  }

  /** The order of two refs, the first of them sent, is the same in the uncut sources. */
  lemma PrecedesUncut(sources: Sources, cut: Sources, limit: nat, dest: seq<SizedRef>, n: nat, r: Ref)
    requires Mergeable(sources) && IsCut(sources, cut, limit) && IsFirst(cut, limit, dest)
    requires n < |dest| && Precedes(cut, dest[n].ref, r)
    ensures Precedes(sources, dest[n].ref, r)
  {
    var d := dest[n].ref;
    if !Less(d, r) {
      var i :| SoonerAt(cut, d, r, i);
      CutHas(sources[i], limit, d);
      forall j | 0 <= j <= i ensures !HasRef(sources[j], r) {
        if HasRef(sources[j], r) { BeyondCut(sources, cut, limit, dest, j, r); }
      }
      assert SoonerAt(sources, d, r, i);
    }
  }

  lemma EarliestUncut(sources: Sources, cut: Sources, limit: nat, dest: seq<SizedRef>, n: nat)
    requires Mergeable(sources) && IsCut(sources, cut, limit) && IsFirst(cut, limit, dest) && n < |dest|
    ensures FromEarliest(sources, dest[n])
  {
    var i: nat, k: nat :| EarliestAt(cut, dest[n], i, k);
    assert cut[i] == Cut(sources[i], limit);
    forall j | 0 <= j < i ensures !HasRef(sources[j], dest[n].ref) {
      LessIrreflexive(dest[n].ref);
      if HasRef(sources[j], dest[n].ref) { BeyondCut(sources, cut, limit, dest, j, dest[n].ref); }
    }
    assert EarliestAt(sources, dest[n], i, k);
  }

  /** What is first in the cut sources is first in the uncut ones. */
  lemma CutIsEnough(sources: Sources, cut: Sources, limit: nat, dest: seq<SizedRef>)
    requires Mergeable(sources) && IsCut(sources, cut, limit) && IsFirst(cut, limit, dest)
    ensures IsFirst(sources, limit, dest)
  {
    forall i, k | 0 <= i < |sources| && 0 <= k < |sources[i]|
      ensures HasRef(dest, sources[i][k].ref) || (|dest| == limit && After(sources, dest, sources[i][k].ref))
    {
      EntryUncut(sources, cut, limit, dest, i, k);
    }
    forall n | 0 <= n < |dest| ensures FromEarliest(sources, dest[n]) {
      EarliestUncut(sources, cut, limit, dest, n);
    }
    forall m, n | 0 <= m < n < |dest| ensures Precedes(sources, dest[m].ref, dest[n].ref) {
      PrecedesUncut(sources, cut, limit, dest, m, dest[n].ref);
    }
  }

  lemma EntryUncut(sources: Sources, cut: Sources, limit: nat, dest: seq<SizedRef>, i: nat, k: nat)
    requires Mergeable(sources) && IsCut(sources, cut, limit) && IsFirst(cut, limit, dest) && i < |sources| && k < |sources[i]|
    ensures HasRef(dest, sources[i][k].ref) || (|dest| == limit && After(sources, dest, sources[i][k].ref))
  {
    var r := sources[i][k].ref;
    if k >= limit {
      LeftOut(sources, cut, limit, dest, i, k);
    } else if !HasRef(dest, r) {
      assert cut[i][k] == sources[i][k];
      assert After(cut, dest, r);
      forall n | 0 <= n < |dest| ensures Precedes(sources, dest[n].ref, r) { PrecedesUncut(sources, cut, limit, dest, n, r); }
    }
  }

  // ---- IsFirst determines the output ----------------------------------------------------------------

  /** Of two refs in the sources one precedes the other. */
  lemma PrecedesTotal(sources: Sources, x: SizedRef, y: SizedRef)
    requires Mergeable(sources) && FromEarliest(sources, x) && FromEarliest(sources, y) && x.ref != y.ref
    ensures Precedes(sources, x.ref, y.ref) || Precedes(sources, y.ref, x.ref)
  {
    var i: nat, k: nat :| EarliestAt(sources, x, i, k);
    var j: nat, m: nat :| EarliestAt(sources, y, j, m);
    assert HasRef(sources[i], x.ref) && HasRef(sources[j], y.ref);
    if !Less(x.ref, y.ref) && !Less(y.ref, x.ref) {
      NotBoth(sources, i, x.ref, y.ref);
      NotBoth(sources, j, y.ref, x.ref);
      if i < j { assert SoonerAt(sources, x.ref, y.ref, i); } else { assert SoonerAt(sources, y.ref, x.ref, j); }
    }
  }

  /** A source does not hold two refs that Less does not order. */
  lemma NotBoth(sources: Sources, i: nat, r: Ref, r': Ref)
    requires Mergeable(sources) && i < |sources| && HasRef(sources[i], r) && r != r' && !Less(r, r') && !Less(r', r)
    ensures !HasRef(sources[i], r')
  {
    var k :| 0 <= k < |sources[i]| && sources[i][k].ref == r;
    assert Increasing(sources[i]);
    forall m | 0 <= m < |sources[i]| ensures sources[i][m].ref != r' {
      assert k < m ==> Less(sources[i][k].ref, sources[i][m].ref);
      assert m < k ==> Less(sources[i][m].ref, sources[i][k].ref);
    }
  }

  /** Where a and b agree so far, a's next entry is in b, not before b's next one. */
  lemma NextIn(sources: Sources, limit: nat, a: seq<SizedRef>, b: seq<SizedRef>, n: nat)
    requires Mergeable(sources) && IsFirst(sources, limit, a) && IsFirst(sources, limit, b)
    requires n < |a| && n <= |b| && a[..n] == b[..n]
    ensures n < |b| && !Precedes(sources, a[n].ref, b[n].ref)
  {
    var r := a[n].ref;
    var i: nat, k: nat :| EarliestAt(sources, a[n], i, k);
    forall m | 0 <= m < n ensures b[m].ref != r {
      assert b[m] == b[..n][m] == a[m];
      PrecedesOnce(sources, a[m].ref, r);
    }
    assert HasRef(b, sources[i][k].ref) || (|b| == limit && After(sources, b, sources[i][k].ref));
    if HasRef(b, r) {
      var m :| 0 <= m < |b| && b[m].ref == r;
      assert m >= n;
      if m > n { PrecedesOnce(sources, b[n].ref, r); } else { NotSelf(sources, r); }
    } else {
      assert n < |b| ==> Precedes(sources, b[n].ref, r);
      if n < |b| { PrecedesOnce(sources, b[n].ref, r); }
    }
  }

  lemma NotSelf(sources: Sources, r: Ref)
    ensures !Precedes(sources, r, r)
  {
    LessIrreflexive(r);
  }

  lemma SameEntry(sources: Sources, x: SizedRef, y: SizedRef)
    requires Mergeable(sources) && FromEarliest(sources, x) && FromEarliest(sources, y) && x.ref == y.ref
    ensures x == y
  {
    var i: nat, k: nat :| EarliestAt(sources, x, i, k);
    var j: nat, m: nat :| EarliestAt(sources, y, j, m);
    assert HasRef(sources[i], x.ref) && HasRef(sources[j], y.ref);
    assert i == j && Increasing(sources[i]);
    LessIrreflexive(x.ref);
    assert k == m;
  }

  /** Outputs that agree so far have the same next entry. */
  lemma NextAgrees(sources: Sources, limit: nat, a: seq<SizedRef>, b: seq<SizedRef>, n: nat)
    requires Mergeable(sources) && IsFirst(sources, limit, a) && IsFirst(sources, limit, b)
    requires n < |a| && n <= |b| && a[..n] == b[..n]
    ensures n < |b| && a[n] == b[n]
  {
    NextIn(sources, limit, a, b, n);
    NextIn(sources, limit, b, a, n);
    if a[n].ref != b[n].ref { PrecedesTotal(sources, a[n], b[n]); }
    SameEntry(sources, a[n], b[n]);
  }

  /** a and b are outputs, and a's first n entries are b's. */
  ghost predicate AgreeUpTo(sources: Sources, limit: nat, a: seq<SizedRef>, b: seq<SizedRef>, n: nat) {
    var outputs := Mergeable(sources) && IsFirst(sources, limit, a) && IsFirst(sources, limit, b);
    outputs && n <= |a| && n <= |b| && a[..n] == b[..n]
  }

  lemma AgreeMore(sources: Sources, limit: nat, a: seq<SizedRef>, b: seq<SizedRef>, n: nat)
    ensures AgreeUpTo(sources, limit, a, b, n) && n < |a| ==> AgreeUpTo(sources, limit, a, b, n + 1)
  {
    if AgreeUpTo(sources, limit, a, b, n) && n < |a| {
      NextAgrees(sources, limit, a, b, n);
      PrefixMore(a, b, n);
    }
  }

  lemma {:induction false} Agree(sources: Sources, limit: nat, a: seq<SizedRef>, b: seq<SizedRef>, n: nat)
    ensures AgreeUpTo(sources, limit, a, b, 0) && n <= |a| ==> AgreeUpTo(sources, limit, a, b, n)
  {
    if n > 0 {
      Agree(sources, limit, a, b, n - 1);
      AgreeMore(sources, limit, a, b, n - 1);
    }
  }

  /** There is one such output. */
  lemma FirstIsUnique(sources: Sources, limit: nat, a: seq<SizedRef>, b: seq<SizedRef>)
    requires Mergeable(sources) && IsFirst(sources, limit, a) && IsFirst(sources, limit, b)
    ensures a == b
  {
    Agree(sources, limit, a, b, |a|);
    Agree(sources, limit, b, a, |b|);
    assert AgreeUpTo(sources, limit, a, b, 0) && AgreeUpTo(sources, limit, b, a, 0);
    assert a == a[..|a|] && b == b[..|b|];
  }

  // ---- What is sent, over the sources -----------------------------------------------------------------

  ghost function Refs(sources: Sources): set<Ref> {
    set i, k | 0 <= i < |sources| && 0 <= k < |sources[i]| :: sources[i][k].ref
  }

  /** The refs of the sources that go before r. */
  ghost function RefsBefore(sources: Sources, r: Ref): set<Ref> {
    set q | q in Refs(sources) && Precedes(sources, q, r)
  }

  ghost function FirstRefs(dest: seq<SizedRef>, n: nat): set<Ref>
    requires n <= |dest|
  {
    set i | 0 <= i < n :: dest[i].ref
  }

  lemma {:induction false} FirstRefsCount(dest: seq<SizedRef>, n: nat)
    requires Consistent(dest) && n <= |dest|
    ensures |FirstRefs(dest, n)| == n
  {
    if n > 0 {
      FirstRefsCount(dest, n - 1);
      FirstRefsMore(dest, n - 1);
    } else {
      assert FirstRefs(dest, 0) == {};
    }
  }

  lemma FirstRefsMore(dest: seq<SizedRef>, n: nat)
    requires Consistent(dest) && n < |dest|
    ensures FirstRefs(dest, n + 1) == FirstRefs(dest, n) + {dest[n].ref} && dest[n].ref !in FirstRefs(dest, n)
  {
  }

  lemma EntryRefs(sources: Sources, x: SizedRef)
    requires FromEarliest(sources, x)
    ensures x.ref in Refs(sources)
  {
    var i: nat, k: nat :| EarliestAt(sources, x, i, k);
  }

  /** What goes before an entry that is sent is sent before it. */
  lemma BeforeSent(sources: Sources, limit: nat, dest: seq<SizedRef>, n: nat, q: Ref)
    requires IsFirst(sources, limit, dest) && n < |dest| && q in Refs(sources)
    ensures Precedes(sources, q, dest[n].ref) <==> q in FirstRefs(dest, n)
  {
    var r := dest[n].ref;
    var i, k :| 0 <= i < |sources| && 0 <= k < |sources[i]| && sources[i][k].ref == q;
    if Precedes(sources, q, r) {
      PrecedesOnce(sources, q, r);
      assert HasRef(dest, sources[i][k].ref) || After(sources, dest, sources[i][k].ref);
      assert HasRef(dest, q);
      var m :| 0 <= m < |dest| && dest[m].ref == q;
      assert m < n;
    } else {
      forall m | 0 <= m < n ensures dest[m].ref != q { assert Precedes(sources, dest[m].ref, r); }
    }
  }

  /** A ref is sent exactly when fewer than limit refs of the sources go before it. */
  lemma SentIff(sources: Sources, limit: nat, dest: seq<SizedRef>, r: Ref)
    requires IsFirst(sources, limit, dest)
    ensures HasRef(dest, r) <==> r in Refs(sources) && |RefsBefore(sources, r)| < limit
  {
    InOrderConsistent(sources, dest);
    forall n | 0 <= n < |dest| ensures dest[n].ref in Refs(sources) { EntryRefs(sources, dest[n]); }
    if HasRef(dest, r) {
      var n :| 0 <= n < |dest| && dest[n].ref == r;
      forall q | q in Refs(sources) ensures q in RefsBefore(sources, r) <==> q in FirstRefs(dest, n) { BeforeSent(sources, limit, dest, n, q); }
      assert RefsBefore(sources, r) == FirstRefs(dest, n);
      FirstRefsCount(dest, n);
    } else if r in Refs(sources) {
      var i, k :| 0 <= i < |sources| && 0 <= k < |sources[i]| && sources[i][k].ref == r;
      assert HasRef(dest, sources[i][k].ref) || (|dest| == limit && After(sources, dest, sources[i][k].ref));
      assert FirstRefs(dest, limit) <= RefsBefore(sources, r);
      FirstRefsCount(dest, limit);
      SubsetSize(FirstRefs(dest, limit), RefsBefore(sources, r));
    }
  }

  /** No two refs among the first limit of the sources are twins. */
  ghost predicate TwinFree(sources: Sources, limit: nat) {
    forall r, r' :: r in Refs(sources) && r' in Refs(sources) && |RefsBefore(sources, r)| < limit && |RefsBefore(sources, r')| < limit ==>
      Comparable(r, r')
  }

  /** The output is increasing under Less if and only if there are no twins among the first limit refs
      of the sources. */
  lemma IncreasingIff(sources: Sources, limit: nat, dest: seq<SizedRef>)
    requires IsFirst(sources, limit, dest)
    ensures Increasing(dest) <==> TwinFree(sources, limit)
  {
    forall r ensures HasRef(dest, r) <==> r in Refs(sources) && |RefsBefore(sources, r)| < limit { SentIff(sources, limit, dest, r); }
    IncreasingRefs(sources, dest);
  }

  lemma IncreasingRefs(sources: Sources, dest: seq<SizedRef>)
    requires InOrder(sources, dest)
    ensures Increasing(dest) <==> forall r, r' :: HasRef(dest, r) && HasRef(dest, r') ==> Comparable(r, r')
  {
    forall m, n | 0 <= m < n < |dest| ensures Comparable(dest[m].ref, dest[n].ref) <==> Less(dest[m].ref, dest[n].ref) {
      PrecedesOnce(sources, dest[m].ref, dest[n].ref);
    }
    if Increasing(dest) {
      forall r, r' | HasRef(dest, r) && HasRef(dest, r') ensures Comparable(r, r') {
        var m :| 0 <= m < |dest| && dest[m].ref == r;
        var n :| 0 <= n < |dest| && dest[n].ref == r';
      }
    } else {
      var m, n :| 0 <= m < n < |dest| && !Less(dest[m].ref, dest[n].ref);
      assert HasRef(dest, dest[m].ref) && HasRef(dest, dest[n].ref);
    }
  }

  // ---- The loop -----------------------------------------------------------------------------------

  method StartPeekers(sources: Sources, limit: nat) returns (peekers: seq<ChanPeeker>)
    ensures |peekers| == |sources| && fresh(peekers)
    ensures forall k :: 0 <= k < |peekers| ==> peekers[k].Valid() && peekers[k].Rest() == Cut(sources[k], limit)
    ensures forall j, k :: 0 <= j < k < |peekers| ==> peekers[j] != peekers[k]
  {
    peekers := [];
    for i := 0 to |sources|
      invariant |peekers| == i && fresh(peekers)
      invariant forall k :: 0 <= k < i ==> peekers[k].Valid() && peekers[k].Rest() == Cut(sources[k], limit)
      invariant forall j, k :: 0 <= j < k < i ==> peekers[j] != peekers[k]
    {
      var p := new ChanPeeker(Cut(sources[i], limit));
      peekers := peekers + [p];
    }
  }

  /** Drops from one peeker what has been sent already. */
  method SkipSent(p: ChanPeeker, dest: seq<SizedRef>, ghost cut: Sources, ghost pos: seq<nat>, k: nat)
    returns (ghost pos': seq<nat>)
    requires k < |cut| == |pos| && IsAt(p, cut[k], pos[k])
    modifies p
    ensures |pos'| == |pos| && pos[k] <= pos'[k] && pos' == pos[k := pos'[k]] && IsAt(p, cut[k], pos'[k])
    ensures Merging(cut, pos, dest) ==> Merging(cut, pos', dest)
    ensures pos'[k] < |cut[k]| ==> !TooLow(dest, cut[k][pos'[k]].ref)
  {
    ghost var n := pos[k];
    pos' := pos;
    while true
      invariant pos[k] <= n && IsAt(p, cut[k], n) && |pos'| == |pos| && pos' == pos[k := n]
      invariant Merging(cut, pos, dest) ==> Merging(cut, pos', dest)
      decreases |cut[k]| - n
    {
      var sr, ok := PeekAt(p, cut[k], n);
      if !ok || !TooLow(dest, sr.ref) {
        return;
      }
      DropOne(cut, pos', dest, k);
      var _ := TakeAt(p, cut[k], n);
      n := n + 1;
      pos' := pos'[k := n];
    }
  }

  /** Nothing known about other peekers changes when one of them moves. */
  ghost predicate InStep(peekers: seq<ChanPeeker>, cut: Sources, pos: seq<nat>)
    reads peekers
  {
    && |peekers| == |cut| == |pos|
    && (forall j, k :: 0 <= j < k < |peekers| ==> peekers[j] != peekers[k])
    && (forall k :: 0 <= k < |peekers| ==> IsAt(peekers[k], cut[k], pos[k]))
  }

  /** One round: clear every peeker of what was sent and find the least head. */
  method FindLowest(peekers: seq<ChanPeeker>, dest: seq<SizedRef>, ghost cut: Sources, ghost pos: seq<nat>)
    returns (lowestIdx: int, lowest: SizedRef, ghost pos': seq<nat>)
    requires InStep(peekers, cut, pos)
    modifies peekers
    ensures InStep(peekers, cut, pos')
    ensures Mergeable(cut) && Merging(cut, pos, dest) ==>
              && Merging(cut, pos', dest) && Scanned(cut, pos', dest, |cut|, lowestIdx)
              && (lowestIdx >= 0 ==> lowest == cut[lowestIdx][pos'[lowestIdx]])
  {
    ghost var good := Mergeable(cut) && Merging(cut, pos, dest);
    lowestIdx, lowest, pos' := -1, SizedRef(Zero, 0), pos;
    for idx := 0 to |peekers|
      invariant InStep(peekers, cut, pos')
      invariant -1 <= lowestIdx < idx
      invariant good ==> Merging(cut, pos', dest) && Scanned(cut, pos', dest, idx, lowestIdx)
      invariant good && lowestIdx >= 0 ==> lowest == cut[lowestIdx][pos'[lowestIdx]]
    {
      ghost var before := pos';
      pos' := SkipSent(peekers[idx], dest, cut, pos', idx);
      if good {
        ScannedFrame(cut, before, dest, idx, lowestIdx, pos');
        NotTooLow(cut, pos', dest, idx);
        ScanOne(cut, pos', dest, idx, lowestIdx);
      }
      var sb, ok := PeekAt(peekers[idx], cut[idx], pos'[idx]);
      if ok && (lowestIdx == -1 || Less(sb.ref, lowest.ref)) {
        lowestIdx, lowest := idx, sb;
      }
    }
  }

  lemma ScannedFrame(sources: Sources, pos: seq<nat>, dest: seq<SizedRef>, idx: nat, low: int, pos': seq<nat>)
    requires Scanned(sources, pos, dest, idx, low) && idx < |sources| && |pos'| == |pos| && pos' == pos[idx := pos'[idx]]
    ensures Scanned(sources, pos', dest, idx, low)
  {
    assert forall k :: 0 <= k < idx ==> pos'[k] == pos[k];
    forall k | 0 <= k < idx ensures Cleared(sources, pos', dest, k) {
      assert Cleared(sources, pos, dest, k);
    }
  }

  /** The peekers, with the positions at which they start. */
  method Start(sources: Sources, limit: nat) returns (peekers: seq<ChanPeeker>, ghost cut: Sources, ghost pos: seq<nat>)
    ensures fresh(peekers) && InStep(peekers, cut, pos) && IsCut(sources, cut, limit)
    ensures Mergeable(cut) ==> Merging(cut, pos, [])
  {
    peekers := StartPeekers(sources, limit);
    cut := seq(|sources|, k requires 0 <= k < |sources| => Cut(sources[k], limit));
    pos := seq(|sources|, k => 0);
    NothingSent(cut, pos);
  }

  lemma NothingSent(cut: Sources, pos: seq<nat>)
    requires |pos| == |cut| && forall k :: 0 <= k < |pos| ==> pos[k] == 0
    ensures Mergeable(cut) ==> Merging(cut, pos, [])
  {
  }

  /** mergedEnumerate: for increasing sources, what reaches dest is the first `limit` entries of their
      sorted, duplicate-free union, although each source was asked for no more than `limit`. Twins
      are both sent, the one that an earlier source has first. */
  method MergedEnumerate(sources: Sources, limit: int) returns (dest: seq<SizedRef>)
    ensures limit <= 0 ==> dest == []
    ensures limit >= 0 && Mergeable(sources) ==> IsFirst(sources, limit, dest)
  {
    var n := if limit < 0 then 0 else limit;
    var peekers;
    ghost var cut, pos;
    peekers, cut, pos := Start(sources, n);
    ghost var good := Mergeable(sources);
    CutMergeable(sources, cut, n);
    dest := [];
    var nSent := 0;
    while nSent < limit
      invariant 0 <= nSent == |dest| <= n
      invariant fresh(peekers) && InStep(peekers, cut, pos)
      invariant good ==> Merging(cut, pos, dest)
    {
      var lowestIdx, lowest;
      lowestIdx, lowest, pos := FindLowest(peekers, dest, cut, pos);
      if lowestIdx == -1 {
        EndOfMerge(sources, cut, pos, dest, n);
        return;
      }
      if good { SendLowest(cut, pos, dest, lowestIdx); }
      dest := dest + [lowest];
      nSent := nSent + 1;
    }
    EndOfMerge(sources, cut, pos, dest, n);
  }

  lemma EndOfMerge(sources: Sources, cut: Sources, pos: seq<nat>, dest: seq<SizedRef>, limit: nat)
    requires |pos| == |cut| && |dest| <= limit
    ensures (Mergeable(sources) && IsCut(sources, cut, limit) && Merging(cut, pos, dest) &&
             (|dest| == limit || Scanned(cut, pos, dest, |cut|, -1))) ==> IsFirst(sources, limit, dest)
  {
    if Mergeable(sources) && IsCut(sources, cut, limit) && Merging(cut, pos, dest) &&
       (|dest| == limit || Scanned(cut, pos, dest, |cut|, -1))
    {
      MergeEnds(cut, pos, dest, limit);
      CutIsEnough(sources, cut, limit, dest);
    }
  }

  lemma CutMergeable(sources: Sources, cut: Sources, limit: nat)
    requires IsCut(sources, cut, limit)
    ensures Mergeable(sources) ==> Mergeable(cut)
  {
    assert forall i, k :: 0 <= i < |cut| && 0 <= k < |cut[i]| ==> cut[i][k] == sources[i][k];
  }
}
