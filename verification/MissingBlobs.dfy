/** ListMissingDestinationBlobs of pkg/blobserver/sync.go: set difference by merging two
    sorted streams. */
module MissingBlobs {
  import opened BlobRef
  import opened Enumeration

  /** The entries of src whose ref dst does not have, in order. */
  ghost function Missing(src: seq<SizedRef>, dst: seq<SizedRef>): seq<SizedRef> {
    if src == [] then []
    else
      var (k, before) := (|src| - 1, Missing(src[..|src| - 1], dst));
      if HasRef(dst, src[k].ref) then before else before + [src[k]]
  }

  ghost predicate SizeDiffers(s: SizedRef, dst: seq<SizedRef>) {
    exists j :: 0 <= j < |dst| && dst[j].ref == s.ref && dst[j].size != s.size
  }

  /** The refs of src that dst has with another size, in order. */
  ghost function Mismatched(src: seq<SizedRef>, dst: seq<SizedRef>): seq<Ref> {
    if src == [] then []
    else
      var (k, before) := (|src| - 1, Mismatched(src[..|src| - 1], dst));
      if SizeDiffers(src[k], dst) then before + [src[k].ref] else before
  }

  ghost predicate Sound(s: seq<SizedRef>) {
    Increasing(s) && forall i :: 0 <= i < |s| ==> WellFormed(s[i].ref)
  }

  ghost predicate HasTwins(src: seq<SizedRef>, dst: seq<SizedRef>) {
    exists i, j :: 0 <= i < |src| && 0 <= j < |dst| && Twins(src[i].ref, dst[j].ref)
  }

  /** The refs of dst passed so far lie before what is left of src, those of src before what is left
      of dst, and no twins were met. */
  ghost predicate Apart(src: seq<SizedRef>, dst: seq<SizedRef>, i: nat, j: nat) {
    && i <= |src| && j <= |dst|
    && (forall m, n :: 0 <= m < i && j <= n < |dst| ==> Less(src[m].ref, dst[n].ref))
    && (forall m, n :: i <= m < |src| && 0 <= n < j ==> Less(dst[n].ref, src[m].ref))
    && (forall m, n :: 0 <= m < i && 0 <= n < j ==> !Twins(src[m].ref, dst[n].ref))
  }

  /** i entries of src and j of dst have been dealt with, and the output is that for the entries of
      src passed. */
  ghost predicate Progress(src: seq<SizedRef>, dst: seq<SizedRef>, i: nat, j: nat,
                           missing: seq<SizedRef>, mismatches: seq<Ref>) {
    var streams := Sound(src) && Sound(dst) && Apart(src, dst, i, j);
    var output := streams && missing == Missing(src[..i], dst) && mismatches == Mismatched(src[..i], dst);
    output
  }

  lemma OutputSnoc(src: seq<SizedRef>, i: nat, dst: seq<SizedRef>)
    requires i < |src|
    ensures Missing(src[..i + 1], dst) == if HasRef(dst, src[i].ref) then Missing(src[..i], dst) else Missing(src[..i], dst) + [src[i]]
    ensures Mismatched(src[..i + 1], dst) ==
            if SizeDiffers(src[i], dst) then Mismatched(src[..i], dst) + [src[i].ref] else Mismatched(src[..i], dst)
  {
    assert src[..i + 1][..i] == src[..i] && src[..i + 1][i] == src[i];
  }

  /** A ref before the head of a sorted stream is before all that is left of it. */
  lemma BeforeRest(r: Ref, s: seq<SizedRef>, k: nat)
    requires Increasing(s) && (k < |s| ==> Less(r, s[k].ref))
    ensures forall n :: k <= n < |s| ==> Less(r, s[n].ref)
  {
    forall n | k < n < |s| ensures Less(r, s[n].ref) { LessTransitive(r, s[k].ref, s[n].ref); }
  }

  /** Ordered refs are different, and no twins. */
  lemma LessApart(a: Ref, b: Ref)
    requires WellFormed(a) && WellFormed(b) && Less(a, b)
    ensures a != b && !Twins(a, b) && !Twins(b, a)
  {
    LessTotal(a, b);
    LessTotal(b, a);
    LessIrreflexive(a);
  }

  /** What is left of dst lies after the head of src. */
  lemma PassSource(src: seq<SizedRef>, dst: seq<SizedRef>, i: nat, j: nat)
    requires Sound(src) && Sound(dst) && Apart(src, dst, i, j) && i < |src| && (j < |dst| ==> Less(src[i].ref, dst[j].ref))
    ensures Apart(src, dst, i + 1, j) && forall n :: 0 <= n < |dst| ==> dst[n].ref != src[i].ref
  {
    BeforeRest(src[i].ref, dst, j);
    forall n | 0 <= n < |dst| ensures dst[n].ref != src[i].ref && !Twins(src[i].ref, dst[n].ref) {
      if n < j { LessApart(dst[n].ref, src[i].ref); } else { LessApart(src[i].ref, dst[n].ref); }
    }
  }

  lemma PassDestination(src: seq<SizedRef>, dst: seq<SizedRef>, i: nat, j: nat)
    requires Sound(src) && Sound(dst) && Apart(src, dst, i, j) && i < |src| && j < |dst| && Less(dst[j].ref, src[i].ref)
    ensures Apart(src, dst, i, j + 1)
  {
    BeforeRest(dst[j].ref, src, i);
    NotTwins(src, i, dst[j].ref);
  }

  lemma PassBoth(src: seq<SizedRef>, dst: seq<SizedRef>, i: nat, j: nat)
    requires Sound(src) && Sound(dst) && Apart(src, dst, i, j) && i < |src| && j < |dst| && dst[j].ref == src[i].ref
    ensures Apart(src, dst, i + 1, j + 1) && forall n :: 0 <= n < |dst| && n != j ==> dst[n].ref != src[i].ref
  {
    var r := src[i].ref;
    NotTwins(src, i, r);
    NotTwins(dst, j, r);
    OnlyOne(dst, j);
    BeforeRest(r, src, i + 1);
    BeforeRest(r, dst, j + 1);
  }

  lemma NotTwins(s: seq<SizedRef>, k: nat, r: Ref)
    requires Sound(s) && k <= |s| && WellFormed(r) && forall n :: 0 <= n < k ==> Less(s[n].ref, r)
    ensures forall n :: 0 <= n < k ==> !Twins(s[n].ref, r) && !Twins(r, s[n].ref)
  {
    forall n | 0 <= n < k ensures !Twins(s[n].ref, r) && !Twins(r, s[n].ref) { LessApart(s[n].ref, r); }
  }

  lemma OnlyOne(s: seq<SizedRef>, k: nat)
    requires Sound(s) && k < |s|
    ensures forall n :: 0 <= n < |s| && n != k ==> s[n].ref != s[k].ref
  {
    forall n | 0 <= n < |s| && n != k ensures s[n].ref != s[k].ref {
      if n < k { LessApart(s[n].ref, s[k].ref); } else { LessApart(s[k].ref, s[n].ref); }
    }
  }

  /** What a ref that only src has adds to the output. */
  lemma NoMatch(src: seq<SizedRef>, i: nat, dst: seq<SizedRef>)
    requires i < |src| && forall n :: 0 <= n < |dst| ==> dst[n].ref != src[i].ref
    ensures Missing(src[..i + 1], dst) == Missing(src[..i], dst) + [src[i]]
    ensures Mismatched(src[..i + 1], dst) == Mismatched(src[..i], dst)
  {
    OutputSnoc(src, i, dst);
    assert !HasRef(dst, src[i].ref) && !SizeDiffers(src[i], dst);
  }

  /** What a shared ref adds to the output. */
  lemma OneMatch(src: seq<SizedRef>, i: nat, dst: seq<SizedRef>, j: nat)
    requires i < |src| && j < |dst| && dst[j].ref == src[i].ref && forall n :: 0 <= n < |dst| && n != j ==> dst[n].ref != src[i].ref
    ensures Missing(src[..i + 1], dst) == Missing(src[..i], dst)
    ensures Mismatched(src[..i + 1], dst) ==
            if src[i].size != dst[j].size then Mismatched(src[..i], dst) + [src[i].ref] else Mismatched(src[..i], dst)
  {
    assert HasRef(dst, src[i].ref) && (SizeDiffers(src[i], dst) <==> src[i].size != dst[j].size);
    OutputSnoc(src, i, dst);
  }

  lemma SourceEnds(src: seq<SizedRef>, dst: seq<SizedRef>, j: nat, missing: seq<SizedRef>, mismatches: seq<Ref>)
    ensures Progress(src, dst, |src|, j, missing, mismatches) ==>
              !HasTwins(src, dst) && missing == Missing(src, dst) && mismatches == Mismatched(src, dst)
  {
    if !Progress(src, dst, |src|, j, missing, mismatches) { return; }
    assert src[..|src|] == src;
    forall m, n | 0 <= m < |src| && 0 <= n < |dst| ensures !Twins(src[m].ref, dst[n].ref) {
      if j <= n { LessTotal(src[m].ref, dst[n].ref); }
    }
  }

  /** What one round of the merge loop did. */
  datatype Turn =
    | SourceEnded
    | BadRef
    | Sent(sb: SizedRef)
    | Matched(sb: SizedRef, db: SizedRef)
    | Skipped
    | Stuck

  function SrcStep(turn: Turn): nat { if turn.Sent? || turn.Matched? then 1 else 0 }

  function DstStep(turn: Turn): nat { if turn.Matched? || turn.Skipped? then 1 else 0 }

  /** The turn fits the heads of the streams at i and j. When both are valid, differ and neither is
      Less than the other, no case of the switch applies. */
  ghost predicate Fits(turn: Turn, src: seq<SizedRef>, i: nat, dst: seq<SizedRef>, j: nat) {
    var inStreams := i <= |src| && j <= |dst| && (turn.SourceEnded? <==> i == |src|);
    var fits := inStreams &&
                match turn
                case SourceEnded => true
                case BadRef => !Valid(src[i].ref) || (j < |dst| && !Valid(dst[j].ref))
                case Sent(sb) => sb == src[i] && (j < |dst| ==> Less(sb.ref, dst[j].ref))
                case Matched(sb, db) => j < |dst| && sb == src[i] && db == dst[j] && sb.ref == db.ref
                case Skipped => j < |dst| && Less(dst[j].ref, src[i].ref)
                case Stuck => j < |dst| && src[i].ref != dst[j].ref && !Less(src[i].ref, dst[j].ref) && !Less(dst[j].ref, src[i].ref);
    fits
  }

  /** One round of the loop: the switch on the heads of the two streams. */
  method MergeRound(src: ChanPeeker, dst: ChanPeeker, ghost s: seq<SizedRef>, ghost i: nat, ghost d: seq<SizedRef>, ghost j: nat)
    returns (turn: Turn)
    requires IsAt(src, s, i) && IsAt(dst, d, j) && src != dst
    modifies src, dst
    ensures IsAt(src, s, i + SrcStep(turn)) && IsAt(dst, d, j + DstStep(turn)) && Fits(turn, s, i, d, j)
  {
    var srcSized, ok := PeekAt(src, s, i);
    if !ok {
      return SourceEnded;
    }
    if !Valid(srcSized.ref) {
      return BadRef;
    }
    var dstSized, dok := PeekAt(dst, d, j);
    if !dok {
      var sb := TakeAt(src, s, i);
      return Sent(sb);
    }
    if !Valid(dstSized.ref) {
      return BadRef;
    }
    if srcSized.ref == dstSized.ref {
      var sb := TakeAt(src, s, i);
      var db := TakeAt(dst, d, j);
      return Matched(sb, db);
    } else if Less(srcSized.ref, dstSized.ref) {
      var sb := TakeAt(src, s, i);
      return Sent(sb);
    } else if Less(dstSized.ref, srcSized.ref) {
      var _ := TakeAt(dst, d, j);
      return Skipped;
    }
    return Stuck;
  }

  /** What a turn adds to the missing blobs and to the mismatches. */
  function Send(missing: seq<SizedRef>, turn: Turn): seq<SizedRef> {
    if turn.Sent? then missing + [turn.sb] else missing
  }

  function Report(mismatches: seq<Ref>, turn: Turn): seq<Ref> {
    if turn.Matched? && turn.sb.size != turn.db.size then mismatches + [turn.sb.ref] else mismatches
  }

  lemma TurnedSent(src: seq<SizedRef>, i: nat, dst: seq<SizedRef>, j: nat, missing: seq<SizedRef>, mismatches: seq<Ref>)
    requires i < |src| && (j < |dst| ==> Less(src[i].ref, dst[j].ref))
    ensures Progress(src, dst, i, j, missing, mismatches) ==>
              Progress(src, dst, i + 1, j, missing + [src[i]], mismatches)
  {
    if !Progress(src, dst, i, j, missing, mismatches) { return; }
    PassSource(src, dst, i, j);
    NoMatch(src, i, dst);
  }

  lemma TurnedMatched(src: seq<SizedRef>, i: nat, dst: seq<SizedRef>, j: nat, missing: seq<SizedRef>, mismatches: seq<Ref>)
    requires i < |src| && j < |dst| && dst[j].ref == src[i].ref
    ensures Progress(src, dst, i, j, missing, mismatches) ==>
              Progress(src, dst, i + 1, j + 1, missing, if src[i].size != dst[j].size then mismatches + [src[i].ref] else mismatches)
  {
    if !Progress(src, dst, i, j, missing, mismatches) { return; }
    PassBoth(src, dst, i, j);
    OneMatch(src, i, dst, j);
  }

  lemma TurnedSkipped(src: seq<SizedRef>, i: nat, dst: seq<SizedRef>, j: nat, missing: seq<SizedRef>, mismatches: seq<Ref>)
    requires i < |src| && j < |dst| && Less(dst[j].ref, src[i].ref)
    ensures Progress(src, dst, i, j, missing, mismatches) ==>
              Progress(src, dst, i, j + 1, missing, mismatches)
  {
    if !Progress(src, dst, i, j, missing, mismatches) { return; }
    PassDestination(src, dst, i, j);
  }

  lemma Turned(src: seq<SizedRef>, i: nat, dst: seq<SizedRef>, j: nat, missing: seq<SizedRef>, mismatches: seq<Ref>, turn: Turn)
    requires Fits(turn, src, i, dst, j)
    ensures Progress(src, dst, i, j, missing, mismatches) ==>
              Progress(src, dst, i + SrcStep(turn), j + DstStep(turn), Send(missing, turn), Report(mismatches, turn))
  {
    match turn
    case Sent(_) => TurnedSent(src, i, dst, j, missing, mismatches);
    case Matched(_, _) => TurnedMatched(src, i, dst, j, missing, mismatches);
    case Skipped => TurnedSkipped(src, i, dst, j, missing, mismatches);
    case _ =>
  }

  lemma Begin(src: seq<SizedRef>, dst: seq<SizedRef>)
    ensures Sound(src) && Sound(dst) ==> Progress(src, dst, 0, 0, [], [])
  {
  }

  /** On sorted streams of parsed refs the loop ends at the end of the source, or gets stuck at
      twins. */
  lemma Ends(src: seq<SizedRef>, i: nat, dst: seq<SizedRef>, j: nat, missing: seq<SizedRef>, mismatches: seq<Ref>, turn: Turn)
    requires Fits(turn, src, i, dst, j)
    ensures Progress(src, dst, i, j, missing, mismatches) ==>
              && turn != BadRef
              && (turn == Stuck ==> HasTwins(src, dst))
              && (turn == SourceEnded ==> !HasTwins(src, dst) && missing == Missing(src, dst) && mismatches == Mismatched(src, dst))
  {
    if !Progress(src, dst, i, j, missing, mismatches) { return; }
    if turn == SourceEnded { SourceEnds(src, dst, j, missing, mismatches); }
    if turn == Stuck { LessTotal(src[i].ref, dst[j].ref); }
  }

  /** The merge loop. `spins` reports that no case of the switch applies: the loop repeats without
      progress, forever. On sorted streams of parsed refs that happens exactly when the streams share
      twins; otherwise the loop ends having sent precisely the missing entries, in order, and reported
      precisely the shared refs whose sizes differ, once each. */
  method ListMissing(srcch: seq<SizedRef>, dstch: seq<SizedRef>)
    returns (missing: seq<SizedRef>, mismatches: seq<Ref>, spins: bool)
    ensures Sound(srcch) && Sound(dstch) ==> (spins <==> HasTwins(srcch, dstch))
    ensures Sound(srcch) && Sound(dstch) && !spins ==>
              missing == Missing(srcch, dstch) && mismatches == Mismatched(srcch, dstch)
  {
    missing, mismatches, spins := [], [], false;
    var src := new ChanPeeker(srcch);
    var dst := new ChanPeeker(dstch);
    ghost var i: nat, j: nat := 0, 0;
    Begin(srcch, dstch);
    while true
      invariant src != dst && fresh(src) && fresh(dst)
      invariant IsAt(src, srcch, i) && IsAt(dst, dstch, j)
      invariant Sound(srcch) && Sound(dstch) ==> Progress(srcch, dstch, i, j, missing, mismatches)
      decreases |srcch| - i + |dstch| - j
    {
      var turn := MergeRound(src, dst, srcch, i, dstch, j);
      Turned(srcch, i, dstch, j, missing, mismatches, turn);
      if turn.SourceEnded? || turn.BadRef? || turn.Stuck? {
        Ends(srcch, i, dstch, j, missing, mismatches, turn);
        spins := turn.Stuck?;
        return;
      }
      missing, mismatches := Send(missing, turn), Report(mismatches, turn);
      i, j := i + SrcStep(turn), j + DstStep(turn);
    }
  }

  // ---- What the list of missing blobs is ------------------------------------------------------

  lemma HasRefLast(s: seq<SizedRef>, r: Ref)
    requires s != []
    ensures HasRef(s, r) <==> HasRef(s[..|s| - 1], r) || s[|s| - 1].ref == r
  {
    var (k, t) := (|s| - 1, s[..|s| - 1]);
    if i :| 0 <= i < |s| && s[i].ref == r { assert i < k ==> t[i].ref == r; }
    if i :| 0 <= i < |t| && t[i].ref == r { assert s[i].ref == r; }
  }

  /** Set difference. */
  lemma {:induction false} MissingRefs(src: seq<SizedRef>, dst: seq<SizedRef>, r: Ref)
    ensures HasRef(Missing(src, dst), r) <==> HasRef(src, r) && !HasRef(dst, r)
  {
    if src != [] {
      var k := |src| - 1;
      HasRefLast(src, r);
      MissingRefs(src[..k], dst, r);
      if !HasRef(dst, src[k].ref) {
        var m := Missing(src, dst);
        HasRefLast(m, r);
        assert m[..|m| - 1] == Missing(src[..k], dst);
      }
    }
  }

  lemma {:induction false} MissingMember(src: seq<SizedRef>, dst: seq<SizedRef>, k: nat) returns (i: nat)
    requires k < |Missing(src, dst)|
    ensures i < |src| && src[i] == Missing(src, dst)[k]
  {
    var (n, before) := (|src| - 1, Missing(src[..|src| - 1], dst));
    if k < |before| {
      i := MissingMember(src[..n], dst, k);
    } else {
      i := n;
    }
  }

  /** The missing blobs of a sorted stream form a sorted stream. */
  lemma {:induction false} MissingSound(src: seq<SizedRef>, dst: seq<SizedRef>)
    requires Sound(src)
    ensures Sound(Missing(src, dst))
  {
    if src != [] {
      var n := |src| - 1;
      MissingSound(src[..n], dst);
      var t := Missing(src[..n], dst);
      forall k | 0 <= k < |t| ensures Less(t[k].ref, src[n].ref) {
        var i := MissingMember(src[..n], dst, k);
        assert t[k] == src[i];
      }
    }
  }
}
