/** One pass of `camtool sync`: syncCmd.doPass in cmd/camtool/sync.go. Fetch, Receive,
    RemoveBlobs and the enumerations may fail at any point. */
module SyncPass {
  import opened BlobRef
  import opened Enumeration
  import opened MissingBlobs

  /** A blobserver.Storage: what it holds, with sizes. */
  class Storage {
    var blobs: map<Ref, nat>
  }

  /** How an enumeration ended. A failing one cancels the others, and a cancelled one is not
      reported as an error of its own. */
  datatype Ending = Complete | Failed | Canceled

  datatype Listing = Listing(sent: seq<SizedRef>, ending: Ending)

  /** What an enumerator may send of a store: a sorted part of it; all of it when it completes. */
  ghost predicate Lists(l: Listing, blobs: map<Ref, nat>) {
    && Sound(l.sent)
    && (forall i :: 0 <= i < |l.sent| ==> l.sent[i].ref in blobs && blobs[l.sent[i].ref] == l.sent[i].size)
    && (l.ending == Complete ==> forall r :: r in blobs ==> HasRef(l.sent, r))
  }

  datatype Stats = Stats(blobsCopied: nat, bytesCopied: nat, errorCount: nat)

  /** The stores between two steps of the copy loop. */
  datatype Snapshot = Snapshot(src: map<Ref, nat>, hop: map<Ref, nat>)

  ghost predicate NothingLost(before: map<Ref, nat>, now: Snapshot) {
    forall r :: r in before ==> r in now.src || r in now.hop
  }

  ghost function TotalSize(blobs: seq<SizedRef>): nat {
    if blobs == [] then 0 else TotalSize(blobs[..|blobs| - 1]) + blobs[|blobs| - 1].size
  }

  ghost predicate Has(blobs: map<Ref, nat>, sb: SizedRef) { sb.ref in blobs && blobs[sb.ref] == sb.size }

  /** What fails while a blob is copied. A Receive or RemoveBlobs that returns an error may have done
      its work all the same. */
  datatype Fault = Fault(fetch: bool, receive: bool, stored: bool, remove: bool, removed: bool)

  const NO_FAULT := Fault(false, false, false, false, false)

  /** The fault lets the blob be removed. */
  predicate TakesAway(f: Fault) { !f.fetch && !f.receive && (!f.remove || f.removed) }

  /** Nothing that is done for the blob fails. */
  predicate Fine(f: Fault, removeSrc: bool) { !f.fetch && !f.receive && (removeSrc ==> !f.remove) }

  /** The stores after the Receive of a blob. */
  ghost function Received(now: Snapshot, sb: SizedRef, f: Fault): Snapshot {
    if Has(now.src, sb) && !f.fetch && (!f.receive || f.stored) then now.(hop := now.hop[sb.ref := sb.size]) else now
  }

  ghost predicate Moves(now: Snapshot, sb: SizedRef, removeSrc: bool, f: Fault) {
    removeSrc && Has(now.src, sb) && TakesAway(f)
  }

  /** The stores after its removal from the source; `same` says that they are one store. */
  ghost function Removed(now: Snapshot, sb: SizedRef, removeSrc: bool, f: Fault, same: bool): Snapshot {
    if !Moves(now, sb, removeSrc, f) then now
    else Snapshot(now.src - {sb.ref}, if same then now.src - {sb.ref} else now.hop)
  }

  /** One blob: `copied` and `removed` say what happened to it, `ok` that nothing failed, and
      `between` is the state before the removal. The two stores may be the same. */
  method CopyOne(src: Storage, hop: Storage, sb: SizedRef, removeSrc: bool, fault: Fault)
    returns (copied: bool, ok: bool, removed: bool, between: Snapshot)
    modifies src, hop
    ensures between == Received(old(Snapshot(src.blobs, hop.blobs)), sb, fault)
    ensures Snapshot(src.blobs, hop.blobs) == Removed(between, sb, removeSrc, fault, src == hop)
    ensures copied <==> Has(old(src.blobs), sb) && !fault.fetch && !fault.receive
    ensures removed <==> Moves(between, sb, removeSrc, fault)
    ensures ok <==> Has(old(src.blobs), sb) && Fine(fault, removeSrc)
  {
    copied, ok, removed, between := false, false, false, Snapshot(src.blobs, hop.blobs);
    if fault.fetch || sb.ref !in src.blobs {
      return;
    }
    if src.blobs[sb.ref] != sb.size {
      return;
    }
    if !fault.receive || fault.stored {
      assert src == hop ==> hop.blobs[sb.ref := sb.size] == hop.blobs;
      hop.blobs := hop.blobs[sb.ref := sb.size];
    }
    between := Snapshot(src.blobs, hop.blobs);
    if fault.receive {
      return;
    }
    copied, ok := true, true;
    if removeSrc {
      if !fault.remove || fault.removed {
        src.blobs := src.blobs - {sb.ref};
        removed := true;
      }
      ok := !fault.remove;
    }
  }

  // ---- The states of the copy loop ------------------------------------------------------------------

  /** The job of a copy loop: which blobs, how, and what goes wrong. */
  datatype Job = Job(blobs: seq<SizedRef>, removeSrc: bool, faults: nat -> Fault, same: bool)

  /** The states a loop goes through: before the first blob and after each, and in between, when a
      blob has been received and not removed. */
  datatype Trace = Trace(states: seq<Snapshot>, between: seq<Snapshot>)

  /** The trace starts with the states of the first n blobs of the job. */
  ghost predicate Follows(trace: Trace, job: Job, n: nat) {
    && n <= |job.blobs| && n < |trace.states| && n <= |trace.between|
    && (forall i: nat :: i < n ==> trace.between[i] == Received(trace.states[i], job.blobs[i], job.faults(i)))
    && (forall i: nat :: i < n ==> trace.states[i + 1] == Removed(trace.between[i], job.blobs[i], job.removeSrc, job.faults(i), job.same))
  }

  /** It has the states of the whole job, and no others; `first` and `last` are the ends. */
  ghost predicate IsTrace(trace: Trace, job: Job, first: Snapshot, last: Snapshot) {
    var whole := |trace.states| == |job.blobs| + 1 && |trace.between| == |job.blobs| && Follows(trace, job, |job.blobs|);
    var ends := whole && trace.states[0] == first && trace.states[|job.blobs|] == last;
    ends && (job.same ==> first.hop == first.src)
  }

  function Longer(trace: Trace, between: Snapshot, next: Snapshot): Trace {
    Trace(trace.states + [next], trace.between + [between])
  }

  lemma FollowsMore(trace: Trace, job: Job, n: nat, between: Snapshot, next: Snapshot)
    requires n < |job.blobs| && Follows(trace, job, n) && |trace.states| == n + 1 && |trace.between| == n
    requires between == Received(trace.states[n], job.blobs[n], job.faults(n))
    requires next == Removed(between, job.blobs[n], job.removeSrc, job.faults(n), job.same)
    ensures Follows(Longer(trace, between, next), job, n + 1)
  {
    var t := Longer(trace, between, next);
    assert forall k :: 0 <= k <= n ==> t.states[k] == trace.states[k];
    assert forall k :: 0 <= k < n ==> t.between[k] == trace.between[k];
  }

  /** Blob i has left the source. */
  ghost predicate Left(trace: Trace, job: Job, i: nat)
    requires i < |job.blobs| && i < |trace.between|
  {
    Moves(trace.between[i], job.blobs[i], job.removeSrc, job.faults(i))
  }

  /** Those of the first n blobs that left the source. */
  ghost function Gone(trace: Trace, job: Job, n: nat): set<Ref>
    requires n <= |job.blobs| && n <= |trace.between|
  {
    set i: nat | i < n && Left(trace, job, i) :: job.blobs[i].ref
  }

  lemma GoneMore(trace: Trace, job: Job, n: nat)
    requires n < |job.blobs| && n < |trace.between|
    ensures Gone(trace, job, n + 1) == if Left(trace, job, n) then Gone(trace, job, n) + {job.blobs[n].ref} else Gone(trace, job, n)
  {
  }

  lemma GoneSame(trace: Trace, job: Job, n: nat, between: Snapshot, next: Snapshot)
    requires n <= |job.blobs| && n == |trace.between|
    ensures Gone(Longer(trace, between, next), job, n) == Gone(trace, job, n)
  {
    var t := Longer(trace, between, next);
    assert forall i: nat :: i < n ==> Left(t, job, i) == Left(trace, job, i);
  }

  /** What the stores hold when `removed` has left the source. */
  ghost predicate Copied(before: Snapshot, now: Snapshot, removed: set<Ref>, same: bool) {
    var source := now.src == before.src - removed && removed <= before.src.Keys;
    var destination := if same then now.hop == now.src
                       else (forall r :: r in before.hop ==> r in now.hop) && (forall r :: r in removed ==> r in now.hop);
    source && destination
  }

  lemma CopiedNothing(before: Snapshot, same: bool)
    requires same ==> before.hop == before.src
    ensures Copied(before, before, {}, same)
  {
    assert before.src - {} == before.src;
  }

  lemma CopiedReceived(before: Snapshot, now: Snapshot, removed: set<Ref>, same: bool, sb: SizedRef, f: Fault)
    requires Copied(before, now, removed, same)
    ensures Copied(before, Received(now, sb, f), removed, same)
    ensures Has(now.src, sb) && TakesAway(f) ==> sb.ref in Received(now, sb, f).hop
  {
    if same && Has(now.src, sb) { assert now.hop[sb.ref := sb.size] == now.hop; }
  }

  lemma CopiedRemoved(before: Snapshot, now: Snapshot, removed: set<Ref>, same: bool, r: Ref)
    requires Copied(before, now, removed, same) && r in now.src && r in now.hop
    ensures var src := now.src - {r}; Copied(before, Snapshot(src, if same then src else now.hop), removed + {r}, same)
  {
    assert now.src - {r} == before.src - (removed + {r});
  }

  lemma {:induction false} StatesCopied(trace: Trace, job: Job, n: nat)
    requires Follows(trace, job, n) && (job.same ==> trace.states[0].hop == trace.states[0].src)
    ensures Copied(trace.states[0], trace.states[n], Gone(trace, job, n), job.same)
  {
    if n == 0 {
      CopiedNothing(trace.states[0], job.same);
      assert Gone(trace, job, 0) == {};
    } else {
      StatesCopied(trace, job, n - 1);
      BetweenCopied(trace, job, n - 1);
      GoneMore(trace, job, n - 1);
      var (k, now) := (n - 1, trace.between[n - 1]);
      assert trace.states[k + 1] == Removed(now, job.blobs[k], job.removeSrc, job.faults(k), job.same);
      if Left(trace, job, k) { CopiedRemoved(trace.states[0], now, Gone(trace, job, k), job.same, job.blobs[k].ref); }
    }
  }

  lemma BetweenCopied(trace: Trace, job: Job, k: nat)
    requires Follows(trace, job, k + 1) && Copied(trace.states[0], trace.states[k], Gone(trace, job, k), job.same)
    ensures Copied(trace.states[0], trace.between[k], Gone(trace, job, k), job.same)
    ensures Left(trace, job, k) ==> job.blobs[k].ref in trace.between[k].src && job.blobs[k].ref in trace.between[k].hop
  {
    assert trace.between[k] == Received(trace.states[k], job.blobs[k], job.faults(k));
    CopiedReceived(trace.states[0], trace.states[k], Gone(trace, job, k), job.same, job.blobs[k], job.faults(k));
  }

  lemma FollowsLess(trace: Trace, job: Job, n: nat, m: nat)
    requires Follows(trace, job, n) && m <= n
    ensures Follows(trace, job, m) && Gone(trace, job, m) <= Gone(trace, job, n)
  {
  }

  /** No state of the trace lacks a blob that was on the source at first. */
  ghost predicate NeverLost(before: map<Ref, nat>, trace: Trace) {
    && (forall k :: 0 <= k < |trace.states| ==> NothingLost(before, trace.states[k]))
    && (forall k :: 0 <= k < |trace.between| ==> NothingLost(before, trace.between[k]))
  }

  /** A state has lost nothing exactly when the stores differ or nothing was removed. */
  lemma StateLostIff(before: Snapshot, now: Snapshot, removed: set<Ref>, same: bool)
    requires Copied(before, now, removed, same)
    ensures NothingLost(before.src, now) <==> !same || removed == {}
  {
    if same && removed != {} {
      var r :| r in removed;
      assert r in before.src && r !in now.src && r !in now.hop;
    }
  }

  lemma StateKept(trace: Trace, job: Job, n: nat, k: nat)
    requires Follows(trace, job, n) && (job.same ==> trace.states[0].hop == trace.states[0].src) && k <= n
    requires !job.same || Gone(trace, job, n) == {}
    ensures NothingLost(trace.states[0].src, trace.states[k])
    ensures k < n ==> NothingLost(trace.states[0].src, trace.between[k])
  {
    FollowsLess(trace, job, n, k);
    StatesCopied(trace, job, k);
    StateLostIff(trace.states[0], trace.states[k], Gone(trace, job, k), job.same);
    if k < n {
      FollowsLess(trace, job, n, k + 1);
      BetweenCopied(trace, job, k);
      StateLostIff(trace.states[0], trace.between[k], Gone(trace, job, k), job.same);
    }
  }

  /** No state of the loop has lost a blob if and only if the stores differ or nothing was removed. */
  lemma LostIff(trace: Trace, job: Job, first: Snapshot, last: Snapshot)
    requires IsTrace(trace, job, first, last)
    ensures NeverLost(first.src, trace) <==> !job.same || Gone(trace, job, |job.blobs|) == {}
  {
    var n := |job.blobs|;
    StatesCopied(trace, job, n);
    StateLostIff(first, last, Gone(trace, job, n), job.same);
    if !job.same || Gone(trace, job, n) == {} {
      forall k | 0 <= k <= n
        ensures NothingLost(first.src, trace.states[k]) && (k < n ==> NothingLost(first.src, trace.between[k]))
      {
        StateKept(trace, job, n, k);
      }
    }
  }

  /** The blobs to copy are on the source, and different. */
  ghost predicate OnSource(src: map<Ref, nat>, blobs: seq<SizedRef>) {
    && (forall i :: 0 <= i < |blobs| ==> Has(src, blobs[i]))
    && Distinct(blobs)
  }

  /** Each blob is still on the source when its turn comes. */
  lemma StillThere(trace: Trace, job: Job, i: nat)
    requires Follows(trace, job, |job.blobs|) && (job.same ==> trace.states[0].hop == trace.states[0].src)
    requires i < |job.blobs| && OnSource(trace.states[0].src, job.blobs)
    ensures Has(trace.states[i].src, job.blobs[i]) && Has(trace.between[i].src, job.blobs[i])
  {
    FollowsLess(trace, job, |job.blobs|, i);
    StatesCopied(trace, job, i);
    assert job.blobs[i].ref !in Gone(trace, job, i);
    assert trace.between[i] == Received(trace.states[i], job.blobs[i], job.faults(i));
  }

  /** The refs of blobs that a job takes away. */
  ghost function TakenAway(job: Job): set<Ref> {
    set i: nat | i < |job.blobs| && job.removeSrc && TakesAway(job.faults(i)) :: job.blobs[i].ref
  }

  /** What leaves a source that has all the blobs depends on the faults alone. */
  lemma GoneIs(trace: Trace, job: Job, first: Snapshot, last: Snapshot)
    requires IsTrace(trace, job, first, last) && OnSource(first.src, job.blobs)
    ensures Gone(trace, job, |job.blobs|) == TakenAway(job)
  {
    forall i: nat | i < |job.blobs| ensures Left(trace, job, i) <==> job.removeSrc && TakesAway(job.faults(i)) { StillThere(trace, job, i); }
  }

  // ---- The counts -----------------------------------------------------------------------------------

  /** How one blob changes the statistics. */
  function Counted(stats: Stats, sb: SizedRef, copied: bool, ok: bool): Stats {
    Stats(if copied then stats.blobsCopied + 1 else stats.blobsCopied,
          if copied then stats.bytesCopied + sb.size else stats.bytesCopied,
          if ok then stats.errorCount else stats.errorCount + 1)
  }

  /** The statistics of the first n blobs. */
  ghost function Tally(trace: Trace, job: Job, n: nat): Stats
    requires n <= |job.blobs| && n <= |trace.states|
  {
    if n == 0 then Stats(0, 0, 0)
    else
      var (k, f) := (n - 1, job.faults(n - 1));
      var has := Has(trace.states[k].src, job.blobs[k]);
      Counted(Tally(trace, job, k), job.blobs[k], has && !f.fetch && !f.receive, has && Fine(f, job.removeSrc))
  }

  lemma {:induction false} TallySame(trace: Trace, job: Job, n: nat, between: Snapshot, next: Snapshot)
    requires n <= |job.blobs| && n <= |trace.states|
    ensures Tally(Longer(trace, between, next), job, n) == Tally(trace, job, n)
  {
    if n > 0 { TallySame(trace, job, n - 1, between, next); }
  }

  /** Nothing goes wrong with the first n blobs. */
  ghost predicate FineSoFar(trace: Trace, job: Job, n: nat)
    requires n <= |job.blobs| && n <= |trace.states|
  {
    forall i: nat :: i < n ==> Has(trace.states[i].src, job.blobs[i]) && Fine(job.faults(i), job.removeSrc)
  }

  /** No errors are counted exactly when every blob is there at its turn and nothing fails; then all
      are counted. */
  lemma {:induction false} TallyIs(trace: Trace, job: Job, n: nat)
    requires n <= |job.blobs| && n <= |trace.states|
    ensures Tally(trace, job, n).errorCount == 0 <==> FineSoFar(trace, job, n)
    ensures FineSoFar(trace, job, n) ==>
              Tally(trace, job, n).blobsCopied == n && Tally(trace, job, n).bytesCopied == TotalSize(job.blobs[..n])
  {
    if n > 0 {
      TallyIs(trace, job, n - 1);
      assert job.blobs[..n][..n - 1] == job.blobs[..n - 1];
    }
  }

  /** Blob i was received, or something went wrong with it; with a removal that fails it is both. */
  ghost predicate Copies(trace: Trace, job: Job, i: nat)
    requires i < |job.blobs| && i < |trace.states|
  {
    Has(trace.states[i].src, job.blobs[i]) && !job.faults(i).fetch && !job.faults(i).receive
  }

  ghost predicate GoesWrong(trace: Trace, job: Job, i: nat)
    requires i < |job.blobs| && i < |trace.states|
  {
    !Has(trace.states[i].src, job.blobs[i]) || job.faults(i).fetch || job.faults(i).receive || (job.removeSrc && job.faults(i).remove)
  }

  ghost function CopiedOnes(trace: Trace, job: Job, n: nat): set<nat>
    requires n <= |job.blobs| && n <= |trace.states|
  {
    set i: nat | i < n && Copies(trace, job, i)
  }

  ghost function WrongOnes(trace: Trace, job: Job, n: nat): set<nat>
    requires n <= |job.blobs| && n <= |trace.states|
  {
    set i: nat | i < n && GoesWrong(trace, job, i)
  }

  ghost function SizeOf(blobs: seq<SizedRef>, which: set<nat>, n: nat): nat
    requires n <= |blobs|
  {
    if n == 0 then 0 else SizeOf(blobs, which, n - 1) + if n - 1 in which then blobs[n - 1].size else 0
  }

  lemma {:induction false} SizeOfSame(blobs: seq<SizedRef>, a: set<nat>, b: set<nat>, n: nat)
    requires n <= |blobs| && forall i: nat :: i < n ==> (i in a <==> i in b)
    ensures SizeOf(blobs, a, n) == SizeOf(blobs, b, n)
  {
    if n > 0 { SizeOfSame(blobs, a, b, n - 1); }
  }

  /** The statistics are the number of blobs copied, their sizes together and the number of blobs that
      something went wrong with. */
  lemma {:induction false} TallyCounts(trace: Trace, job: Job, n: nat)
    requires n <= |job.blobs| && n <= |trace.states|
    ensures Tally(trace, job, n).blobsCopied == |CopiedOnes(trace, job, n)|
    ensures Tally(trace, job, n).bytesCopied == SizeOf(job.blobs, CopiedOnes(trace, job, n), n)
    ensures Tally(trace, job, n).errorCount == |WrongOnes(trace, job, n)|
  {
    if n > 0 {
      var k := n - 1;
      TallyCounts(trace, job, k);
      OneTallied(trace, job, k);
      OnesMore(trace, job, k);
      SizeMore(job.blobs, CopiedOnes(trace, job, k), k, Copies(trace, job, k));
    }
  }

  lemma OneTallied(trace: Trace, job: Job, k: nat)
    requires k < |job.blobs| && k < |trace.states|
    ensures Tally(trace, job, k + 1) == Counted(Tally(trace, job, k), job.blobs[k], Copies(trace, job, k), !GoesWrong(trace, job, k))
  {
  }

  lemma SizeMore(blobs: seq<SizedRef>, which: set<nat>, k: nat, more: bool)
    requires k < |blobs| && k !in which
    ensures SizeOf(blobs, if more then which + {k} else which, k + 1) == SizeOf(blobs, which, k) + if more then blobs[k].size else 0
  {
    SizeOfSame(blobs, which, if more then which + {k} else which, k);
  }

  lemma OnesMore(trace: Trace, job: Job, k: nat)
    requires k < |job.blobs| && k < |trace.states|
    ensures CopiedOnes(trace, job, k + 1) == if Copies(trace, job, k) then CopiedOnes(trace, job, k) + {k} else CopiedOnes(trace, job, k)
    ensures WrongOnes(trace, job, k + 1) == if GoesWrong(trace, job, k) then WrongOnes(trace, job, k) + {k} else WrongOnes(trace, job, k)
    ensures k !in CopiedOnes(trace, job, k) && k !in WrongOnes(trace, job, k)
  {
  }

  ghost predicate AllFine(job: Job) {
    forall i: nat :: i < |job.blobs| ==> Fine(job.faults(i), job.removeSrc)
  }

  /** On a source that has all the blobs, there are no errors exactly when no fault matters. */
  lemma CleanIff(trace: Trace, job: Job, first: Snapshot, last: Snapshot)
    requires IsTrace(trace, job, first, last) && OnSource(first.src, job.blobs)
    ensures Tally(trace, job, |job.blobs|).errorCount == 0 <==> AllFine(job)
    ensures AllFine(job) ==> FineSoFar(trace, job, |job.blobs|)
  {
    TallyIs(trace, job, |job.blobs|);
    forall i: nat | i < |job.blobs| ensures Has(trace.states[i].src, job.blobs[i]) { StillThere(trace, job, i); }
  }

  ghost predicate Distinct(blobs: seq<SizedRef>) { forall i, j :: 0 <= i < j < |blobs| ==> blobs[i].ref != blobs[j].ref }

  /** Without errors every blob arrives with its size, and nothing else changes. */
  lemma {:induction false} AllArrive(trace: Trace, job: Job, n: nat)
    requires Follows(trace, job, n) && !job.same && FineSoFar(trace, job, n) && Distinct(job.blobs)
    ensures forall i :: 0 <= i < n ==> Has(trace.states[n].hop, job.blobs[i])
    ensures forall r :: !HasRef(job.blobs, r) ==> SameAt(trace.states[0].hop, trace.states[n].hop, r)
  {
    if n > 0 {
      var k := n - 1;
      AllArrive(trace, job, k);
      assert trace.states[k + 1] == Removed(trace.between[k], job.blobs[k], job.removeSrc, job.faults(k), job.same);
      OneArrives(trace.states[k], job.blobs[k], job.removeSrc, job.faults(k));
    }
  }

  ghost predicate SameAt(m: map<Ref, nat>, m': map<Ref, nat>, r: Ref) {
    (r in m <==> r in m') && (r in m ==> m[r] == m'[r])
  }

  lemma OneArrives(now: Snapshot, sb: SizedRef, removeSrc: bool, f: Fault)
    requires Has(now.src, sb) && Fine(f, removeSrc)
    ensures var hop := Removed(Received(now, sb, f), sb, removeSrc, f, false).hop;
            Has(hop, sb) && forall r :: r != sb.ref ==> SameAt(now.hop, hop, r)
  {
  }

  /** The copy loop goes through the states that the job says, and counts as it says. */
  method CopyLoop(src: Storage, hop: Storage, syncBlobs: seq<SizedRef>, removeSrc: bool, faults: nat -> Fault)
    returns (stats: Stats, trace: Trace, removed: set<Ref>)
    modifies src, hop
    ensures var job := Job(syncBlobs, removeSrc, faults, src == hop);
            && IsTrace(trace, job, old(Snapshot(src.blobs, hop.blobs)), Snapshot(src.blobs, hop.blobs))
            && removed == Gone(trace, job, |syncBlobs|) && stats == Tally(trace, job, |syncBlobs|)
  {
    ghost var job := Job(syncBlobs, removeSrc, faults, src == hop);
    stats, trace, removed := Stats(0, 0, 0), Trace([Snapshot(src.blobs, hop.blobs)], []), {};
    for i := 0 to |syncBlobs|
      invariant |trace.states| == i + 1 && |trace.between| == i && Follows(trace, job, i)
      invariant trace.states[0] == old(Snapshot(src.blobs, hop.blobs)) && trace.states[i] == Snapshot(src.blobs, hop.blobs)
      invariant removed == Gone(trace, job, i) && stats == Tally(trace, job, i)
    {
      var sb := syncBlobs[i];
      var copied, ok, gone, between := CopyOne(src, hop, sb, removeSrc, faults(i));
      var next := Snapshot(src.blobs, hop.blobs);
      FollowsMore(trace, job, i, between, next);
      GoneSame(trace, job, i, between, next);
      TallySame(trace, job, i, between, next);
      trace := Longer(trace, between, next);
      GoneMore(trace, job, i);
      if gone {
        removed := removed + {sb.ref};
      }
      stats := Counted(stats, sb, copied, ok);
    }
  }

  datatype Outcome = Returned(err: bool) | Spins

  ghost predicate Synced(r: Ref, dest: map<Ref, nat>, third: map<Ref, nat>) {
    r in dest || r in third
  }

  /** The blobs the pass copies: missing at dest and, in three-leg mode, on the third leg. */
  ghost function ToCopy(src: seq<SizedRef>, dest: seq<SizedRef>, third: seq<SizedRef>): seq<SizedRef> {
    Missing(Missing(src, dest), third)
  }

  lemma {:induction false} MissingNothing(src: seq<SizedRef>)
    ensures Missing(src, []) == src && Mismatched(src, []) == []
  {
    if src != [] {
      var k := |src| - 1;
      MissingNothing(src[..k]);
      assert src == src[..k] + [src[k]];
    }
  }

  /** Every blob of src is copied or was at dest or on the third leg already. */
  lemma CopyComplete(srcList: Listing, destList: Listing, third: seq<SizedRef>,
                     src: map<Ref, nat>, dest: map<Ref, nat>, thirdBlobs: map<Ref, nat>, r: Ref)
    requires Lists(srcList, src) && Lists(destList, dest) && Lists(Listing(third, Complete), thirdBlobs)
    requires srcList.ending == Complete && destList.ending == Complete && r in src
    ensures HasRef(ToCopy(srcList.sent, destList.sent, third), r) <==> !Synced(r, dest, thirdBlobs)
  {
    MissingRefs(srcList.sent, destList.sent, r);
    MissingRefs(Missing(srcList.sent, destList.sent), third, r);
  }

  /** A source that is itself one of the stores searched has nothing to copy. */
  lemma NothingToCopy(srcList: Listing, destList: Listing, third: seq<SizedRef>,
                      src: map<Ref, nat>, dest: map<Ref, nat>, thirdBlobs: map<Ref, nat>)
    requires Lists(srcList, src) && Lists(destList, dest) && Lists(Listing(third, Complete), thirdBlobs)
    requires srcList.ending == Complete && destList.ending == Complete && (src == dest || src == thirdBlobs)
    ensures ToCopy(srcList.sent, destList.sent, third) == []
  {
    var c := ToCopy(srcList.sent, destList.sent, third);
    if c != [] {
      var r := c[0].ref;
      assert HasRef(c, r);
      ToCopyListed(srcList, destList, third, src, 0);
      CopyComplete(srcList, destList, third, src, dest, thirdBlobs, r);
    }
  }

  /** What is copied is on src, with its size. */
  lemma ToCopyListed(srcList: Listing, destList: Listing, third: seq<SizedRef>, src: map<Ref, nat>, k: nat)
    requires Lists(srcList, src) && k < |ToCopy(srcList.sent, destList.sent, third)|
    ensures Has(src, ToCopy(srcList.sent, destList.sent, third)[k])
  {
    var i := MissingMember(Missing(srcList.sent, destList.sent), third, k);
    var j := MissingMember(srcList.sent, destList.sent, i);
  }

  /** r is on one of the stores with this size. */
  ghost predicate SyncedAs(r: Ref, size: nat, dest: map<Ref, nat>, third: map<Ref, nat>) {
    (r in dest && dest[r] == size) || (r in third && third[r] == size)
  }

  lemma {:induction false} SizesAgree(src: seq<SizedRef>, dst: seq<SizedRef>, i: nat, j: nat)
    requires i < |src| && j < |dst| && src[i].ref == dst[j].ref && Mismatched(src, dst) == []
    ensures src[i].size == dst[j].size
  {
    var k := |src| - 1;
    if i < k {
      assert src[..k][i] == src[i];
      SizesAgree(src[..k], dst, i, j);
    }
  }

  /** When no sizes differ, what is there already is there with the size it has on src. */
  lemma SyncedBefore(srcList: Listing, destList: Listing, third: seq<SizedRef>,
                     src: map<Ref, nat>, dest: map<Ref, nat>, thirdBlobs: map<Ref, nat>, r: Ref)
    requires Lists(srcList, src) && Lists(destList, dest) && Lists(Listing(third, Complete), thirdBlobs)
    requires srcList.ending == Complete && destList.ending == Complete && r in src && Synced(r, dest, thirdBlobs)
    requires Mismatched(srcList.sent, destList.sent) == [] && Mismatched(Missing(srcList.sent, destList.sent), third) == []
    ensures SyncedAs(r, src[r], dest, thirdBlobs)
  {
    if r in dest {
      var i :| 0 <= i < |srcList.sent| && srcList.sent[i].ref == r;
      var j :| 0 <= j < |destList.sent| && destList.sent[j].ref == r;
      SizesAgree(srcList.sent, destList.sent, i, j);
    } else {
      MissingRefs(srcList.sent, destList.sent, r);
      var j :| 0 <= j < |third| && third[j].ref == r;
      MissingSizes(srcList, destList, third, src, r, j);
    }
  }

  lemma MissingSizes(srcList: Listing, destList: Listing, third: seq<SizedRef>, src: map<Ref, nat>, r: Ref, j: nat)
    requires Lists(srcList, src) && HasRef(Missing(srcList.sent, destList.sent), r) && j < |third| && third[j].ref == r
    requires Mismatched(Missing(srcList.sent, destList.sent), third) == []
    ensures r in src && third[j].size == src[r]
  {
    var m := Missing(srcList.sent, destList.sent);
    var k :| 0 <= k < |m| && m[k].ref == r;
    var i := MissingMember(srcList.sent, destList.sent, k);
    SizesAgree(m, third, k, j);
  }

  /** The merges never end exactly when one of them meets twins. */
  ghost predicate MeetsTwins(src: seq<SizedRef>, dest: seq<SizedRef>, third: seq<SizedRef>) {
    HasTwins(src, dest) || HasTwins(Missing(src, dest), third)
  }

  /** The two merges in front of the copy loop. */
  method Plan(src: seq<SizedRef>, dest: seq<SizedRef>, thirdLeg: bool, third: seq<SizedRef>)
    returns (syncBlobs: seq<SizedRef>, errors: nat, spins: bool)
    requires Sound(src) && Sound(dest) && (thirdLeg ==> Sound(third)) && (!thirdLeg ==> third == [])
    ensures spins <==> MeetsTwins(src, dest, third)
    ensures !spins ==> syncBlobs == ToCopy(src, dest, third)
    ensures !spins ==> errors == |Mismatched(src, dest)| + |Mismatched(Missing(src, dest), third)|
  {
    var destNotHave, mismatches;
    destNotHave, mismatches, spins := ListMissing(src, dest);
    syncBlobs, errors := destNotHave, |mismatches|;
    if thirdLeg {
      if !spins { MissingSound(src, dest); }
      var mismatches2, spins2;
      syncBlobs, mismatches2, spins2 := ListMissing(destNotHave, third);
      errors := errors + |mismatches2|;
      spins := spins || spins2;
    } else {
      MissingNothing(destNotHave);
    }
  }

  /** Where the blobs go first. */
  function FirstHop(dest: Storage, thirdLeg: Storage?): Storage { if thirdLeg == null then dest else thirdLeg }

  ghost function BlobsOf(s: Storage?): map<Ref, nat>
    reads s
  {
    if s == null then map[] else s.blobs
  }

  /** What is copied is on src, each blob once. */
  lemma ToCopyOnSource(srcList: Listing, destList: Listing, third: seq<SizedRef>, src: map<Ref, nat>)
    requires Lists(srcList, src)
    ensures OnSource(src, ToCopy(srcList.sent, destList.sent, third))
  {
    var c := ToCopy(srcList.sent, destList.sent, third);
    forall i | 0 <= i < |c| ensures Has(src, c[i]) { ToCopyListed(srcList, destList, third, src, i); }
    MissingSound(srcList.sent, destList.sent);
    MissingSound(Missing(srcList.sent, destList.sent), third);
    forall i, j | 0 <= i < j < |c| ensures c[i].ref != c[j].ref { OnlyOne(c, i); }
  }

  /** Nothing is taken away exactly when nothing should be or every removal is prevented. */
  lemma NothingTaken(job: Job)
    ensures TakenAway(job) == {} <==> !job.removeSrc || forall i: nat :: i < |job.blobs| ==> !TakesAway(job.faults(i))
  {
    forall i: nat | i < |job.blobs| && job.removeSrc && TakesAway(job.faults(i)) ensures job.blobs[i].ref in TakenAway(job) {}
  }

  /** What the pass is to copy, and whether the listings by themselves cause no error. */
  ghost predicate ListingsFine(srcList: Listing, destList: Listing, thirdList: Listing) {
    && srcList.ending == destList.ending == thirdList.ending == Complete
    && Mismatched(srcList.sent, destList.sent) == [] && Mismatched(Missing(srcList.sent, destList.sent), thirdList.sent) == []
  }

  /** The end of an error-free copy: what the stores hold then. */
  lemma FineEnd(trace: Trace, job: Job, first: Snapshot, last: Snapshot)
    requires IsTrace(trace, job, first, last) && OnSource(first.src, job.blobs) && AllFine(job) && (job.same ==> job.blobs == [])
    ensures forall r :: r in last.src <==> r in first.src && !(job.removeSrc && HasRef(job.blobs, r))
    ensures forall i :: 0 <= i < |job.blobs| ==> Has(last.hop, job.blobs[i])
    ensures forall r :: !HasRef(job.blobs, r) ==> SameAt(first.hop, last.hop, r)
  {
    var n := |job.blobs|;
    CleanIff(trace, job, first, last);
    StatesCopied(trace, job, n);
    GoneIs(trace, job, first, last);
    forall r ensures r in TakenAway(job) <==> job.removeSrc && HasRef(job.blobs, r) {
      if HasRef(job.blobs, r) && job.removeSrc {
        var i :| 0 <= i < n && job.blobs[i].ref == r;
        assert Fine(job.faults(i), job.removeSrc);
      }
    }
    if !job.same { AllArrive(trace, job, n); }
  }

  /** What a pass that does not spin makes of its listings. */
  ghost function PlannedJob(srcList: Listing, destList: Listing, thirdList: Listing, removeSrc: bool, faults: nat -> Fault, same: bool): Job {
    Job(ToCopy(srcList.sent, destList.sent, thirdList.sent), removeSrc, faults, same)
  }

  function AddErrors(stats: Stats, errors: nat): Stats { stats.(errorCount := stats.errorCount + errors) }

  /** How a pass on these listings turns out. */
  ghost predicate Succeeds(srcList: Listing, destList: Listing, thirdList: Listing, removeSrc: bool, faults: nat -> Fault) {
    var merged := !MeetsTwins(srcList.sent, destList.sent, thirdList.sent) && ListingsFine(srcList, destList, thirdList);
    merged && AllFine(PlannedJob(srcList, destList, thirdList, removeSrc, faults, false))
  }

  /** How the enumerations of a pass can end: one is cancelled only when another failed. */
  ghost predicate EndingsFit(srcList: Listing, destList: Listing, thirdList: Listing) {
    srcList.ending == Canceled || destList.ending == Canceled || thirdList.ending == Canceled ==>
      srcList.ending == Failed || destList.ending == Failed || thirdList.ending == Failed
  }

  ghost function MismatchCount(srcList: Listing, destList: Listing, thirdList: Listing): nat {
    |Mismatched(srcList.sent, destList.sent)| + |Mismatched(Missing(srcList.sent, destList.sent), thirdList.sent)|
  }

  /** What a pass does, given the listings, to the source and the first hop: the states it goes through
      are those of a copy loop, on the planned job unless it spins. */
  ghost predicate PassDone(srcList: Listing, destList: Listing, thirdList: Listing, removeSrc: bool, faults: nat -> Fault,
                           first: Snapshot, last: Snapshot, stats: Stats, outcome: Outcome, trace: Trace, job: Job) {
    var loop := IsTrace(trace, job, first, last) && job == Job(job.blobs, removeSrc, faults, job.same);
    var planned := outcome != Spins ==>
                     job.blobs == ToCopy(srcList.sent, destList.sent, thirdList.sent) && |trace.states| > |job.blobs|
                     && stats == AddErrors(Tally(trace, job, |job.blobs|), MismatchCount(srcList, destList, thirdList));
    var result := (outcome == Spins <==> MeetsTwins(srcList.sent, destList.sent, thirdList.sent))
                  && (outcome == Returned(false) <==> Succeeds(srcList, destList, thirdList, removeSrc, faults));
    loop && planned && result
  }

  lemma PassIsDone(srcList: Listing, destList: Listing, thirdList: Listing, errors: nat, first: Snapshot, last: Snapshot,
                   stats: Stats, outcome: Outcome, trace: Trace, job: Job)
    requires Lists(srcList, first.src) && EndingsFit(srcList, destList, thirdList) && IsTrace(trace, job, first, last)
    requires !MeetsTwins(srcList.sent, destList.sent, thirdList.sent) && job.blobs == ToCopy(srcList.sent, destList.sent, thirdList.sent)
    requires errors == MismatchCount(srcList, destList, thirdList) && |trace.states| > |job.blobs|
    requires stats == AddErrors(Tally(trace, job, |job.blobs|), errors)
    requires outcome == Returned(srcList.ending == Failed || destList.ending == Failed || thirdList.ending == Failed || stats.errorCount > 0)
    ensures PassDone(srcList, destList, thirdList, job.removeSrc, job.faults, first, last, stats, outcome, trace, job)
  {
    Settled(srcList, destList, thirdList, first.src, trace, job, first, last);
  }

  /** doPass on the source and the first hop, which may be the same store. */
  method PassTo(src: Storage, hop: Storage, srcList: Listing, destList: Listing, hasThird: bool, thirdList: Listing,
                removeSrc: bool, faults: nat -> Fault)
    returns (stats: Stats, outcome: Outcome, trace: Trace, ghost job: Job)
    requires Lists(srcList, src.blobs) && Sound(destList.sent) && Sound(thirdList.sent) && (!hasThird ==> thirdList.sent == [])
    requires EndingsFit(srcList, destList, thirdList)
    modifies src, hop
    ensures job.same == (src == hop)
    ensures PassDone(srcList, destList, thirdList, removeSrc, faults, old(Snapshot(src.blobs, hop.blobs)), Snapshot(src.blobs, hop.blobs), stats, outcome, trace, job)
  {
    ghost var first := Snapshot(src.blobs, hop.blobs);
    var syncBlobs, errors, spins := Plan(srcList.sent, destList.sent, hasThird, thirdList.sent);
    job := Job(syncBlobs, removeSrc, faults, src == hop);
    var removed;
    stats, trace, removed := CopyLoop(src, hop, syncBlobs, removeSrc, faults);
    stats := AddErrors(stats, errors);
    if spins {
      return stats, Spins, trace, job;
    }
    outcome := Returned(srcList.ending == Failed || destList.ending == Failed || thirdList.ending == Failed || stats.errorCount > 0);
    PassIsDone(srcList, destList, thirdList, errors, first, Snapshot(src.blobs, hop.blobs), stats, outcome, trace, job);
  }

  /** When a pass loses blobs: exactly when source and first hop are one store and it takes a blob
      away; unless it spins the listings and the faults tell which. */
  lemma PassLoses(srcList: Listing, destList: Listing, thirdList: Listing, removeSrc: bool, faults: nat -> Fault,
                  first: Snapshot, last: Snapshot, stats: Stats, outcome: Outcome, trace: Trace, job: Job)
    requires Lists(srcList, first.src) && PassDone(srcList, destList, thirdList, removeSrc, faults, first, last, stats, outcome, trace, job)
    ensures |trace.between| >= |job.blobs| && (NeverLost(first.src, trace) <==> !job.same || Gone(trace, job, |job.blobs|) == {})
    ensures outcome != Spins ==>
              (NeverLost(first.src, trace) <==>
                 !job.same || !removeSrc || forall i: nat :: i < |ToCopy(srcList.sent, destList.sent, thirdList.sent)| ==> !TakesAway(faults(i)))
  {
    LostIff(trace, job, first, last);
    if outcome != Spins {
      ToCopyOnSource(srcList, destList, thirdList.sent, first.src);
      GoneIs(trace, job, first, last);
      NothingTaken(job);
    }
  }

  /** What a pass that does not spin reports: the blobs to copy that neither Fetch nor Receive fails
      on, their sizes together, and as many errors as sizes differ and blobs meet a fault that matters. */
  lemma PassCounts(srcList: Listing, destList: Listing, thirdList: Listing, removeSrc: bool, faults: nat -> Fault,
                   first: Snapshot, last: Snapshot, stats: Stats, outcome: Outcome, trace: Trace, job: Job)
    requires Lists(srcList, first.src) && PassDone(srcList, destList, thirdList, removeSrc, faults, first, last, stats, outcome, trace, job)
    requires outcome != Spins
    ensures var blobs := ToCopy(srcList.sent, destList.sent, thirdList.sent);
            && stats.blobsCopied == |Arriving(faults, |blobs|)|
            && stats.bytesCopied == SizeOf(blobs, Arriving(faults, |blobs|), |blobs|)
            && stats.errorCount == MismatchCount(srcList, destList, thirdList) + |Failing(faults, removeSrc, |blobs|)|
  {
    ToCopyOnSource(srcList, destList, thirdList.sent, first.src);
    TallyCounts(trace, job, |job.blobs|);
    OnesOnSource(trace, job, first, last);
  }

  /** The copies that succeed, and those that something goes wrong with, as the faults say. */
  ghost function Arriving(faults: nat -> Fault, n: nat): set<nat> {
    set i: nat | i < n && !faults(i).fetch && !faults(i).receive
  }

  ghost function Failing(faults: nat -> Fault, removeSrc: bool, n: nat): set<nat> {
    set i: nat | i < n && (faults(i).fetch || faults(i).receive || (removeSrc && faults(i).remove))
  }

  lemma OnesOnSource(trace: Trace, job: Job, first: Snapshot, last: Snapshot)
    requires IsTrace(trace, job, first, last) && OnSource(first.src, job.blobs)
    ensures |trace.states| > |job.blobs| && CopiedOnes(trace, job, |job.blobs|) == Arriving(job.faults, |job.blobs|)
    ensures WrongOnes(trace, job, |job.blobs|) == Failing(job.faults, job.removeSrc, |job.blobs|)
  {
    forall i: nat | i < |job.blobs| ensures Has(trace.states[i].src, job.blobs[i]) { StillThere(trace, job, i); }
  }

  /** The stores behind a source, a destination and perhaps a third leg before and after a pass. */
  datatype Stores = Stores(src: map<Ref, nat>, dest: map<Ref, nat>, third: map<Ref, nat>)

  /** The first hop is a store of the pass, and the others change no blob unless they are the source. */
  ghost predicate HopIsStore(first: Snapshot, last: Snapshot, before: Stores, after: Stores) {
    var hop := forall r :: r in last.hop ==> SyncedAs(r, last.hop[r], after.dest, after.third);
    var third := forall r :: r in before.third ==> SameAt(first.hop, before.third, r) || SameAt(after.third, before.third, r);
    var dest := (before.dest == before.src && after.dest == after.src) ||
                forall r :: r in before.dest ==> SameAt(first.hop, before.dest, r) || SameAt(after.dest, before.dest, r);
    hop && third && dest
  }

  lemma StaysSynced(first: Snapshot, last: Snapshot, before: Stores, after: Stores, r: Ref)
    requires HopIsStore(first, last, before, after) && r in before.src && SyncedAs(r, before.src[r], before.dest, before.third)
    requires SameAt(first.hop, last.hop, r) && (before.dest == before.src ==> after.src == before.src)
    ensures SyncedAs(r, before.src[r], after.dest, after.third)
  {
  }

  /** A nil result: every blob first on src is at dest or on the third leg with its size, and with
      removeSrc exactly those that were there before are still on src. */
  lemma NilEffect(srcList: Listing, destList: Listing, thirdList: Listing, removeSrc: bool, faults: nat -> Fault,
                  first: Snapshot, last: Snapshot, stats: Stats, trace: Trace, job: Job, before: Stores, after: Stores)
    requires Lists(srcList, before.src) && Lists(destList, before.dest) && Lists(thirdList, before.third)
    requires PassDone(srcList, destList, thirdList, removeSrc, faults, first, last, stats, Returned(false), trace, job)
    requires first.src == before.src && last.src == after.src && (job.same ==> before.src == before.dest || before.src == before.third)
    requires HopIsStore(first, last, before, after)
    ensures forall r :: r in before.src ==> SyncedAs(r, before.src[r], after.dest, after.third)
    ensures removeSrc ==> forall r :: r in after.src <==> r in before.src && Synced(r, before.dest, before.third)
  {
    var c := ToCopy(srcList.sent, destList.sent, thirdList.sent);
    assert Listing(thirdList.sent, Complete) == thirdList;
    ToCopyOnSource(srcList, destList, thirdList.sent, before.src);
    if before.src == before.dest || before.src == before.third {
      NothingToCopy(srcList, destList, thirdList.sent, before.src, before.dest, before.third);
    }
    assert job.blobs == c && AllFine(job) by {
      assert job.faults == faults && job.removeSrc == removeSrc;
      assert PlannedJob(srcList, destList, thirdList, removeSrc, faults, false).blobs == job.blobs;
    }
    FineEnd(trace, job, first, last);
    forall r | r in before.src
      ensures SyncedAs(r, before.src[r], after.dest, after.third) && (removeSrc ==> (r in after.src <==> Synced(r, before.dest, before.third)))
    {
      CopyComplete(srcList, destList, thirdList.sent, before.src, before.dest, before.third, r);
      if HasRef(c, r) {
        var i :| 0 <= i < |c| && c[i].ref == r;
        assert Has(before.src, c[i]) && Has(last.hop, c[i]);
      } else {
        SyncedBefore(srcList, destList, thirdList.sent, before.src, before.dest, before.third, r);
        StaysSynced(first, last, before, after, r);
      }
    }
  }

  /** doPass. With a third leg, blobs missing at dest and on the third leg go to the third leg. Any of
      the stores may be the same. `Spins` is the pass that never ends because a merge met twins. */
  method DoPass(src: Storage, dest: Storage, thirdLeg: Storage?, removeSrc: bool,
                srcList: Listing, destList: Listing, thirdList: Listing, faults: nat -> Fault)
    returns (stats: Stats, outcome: Outcome, trace: Trace, ghost job: Job)
    requires Lists(srcList, src.blobs) && Lists(destList, dest.blobs) && Lists(thirdList, BlobsOf(thirdLeg))
    requires thirdLeg == null ==> thirdList == Listing([], Complete)
    requires EndingsFit(srcList, destList, thirdList)
    modifies src, dest, thirdLeg
    ensures job.same == (src == FirstHop(dest, thirdLeg))
    ensures PassDone(srcList, destList, thirdList, removeSrc, faults, old(Snapshot(src.blobs, FirstHop(dest, thirdLeg).blobs)),
                     Snapshot(src.blobs, FirstHop(dest, thirdLeg).blobs), stats, outcome, trace, job)
    ensures dest != src && dest != FirstHop(dest, thirdLeg) ==> dest.blobs == old(dest.blobs)
    ensures outcome == Returned(false) ==> forall r :: r in old(src.blobs) ==> SyncedAs(r, old(src.blobs)[r], dest.blobs, BlobsOf(thirdLeg))
    ensures outcome == Returned(false) && removeSrc ==>
              forall r :: r in src.blobs <==> r in old(src.blobs) && Synced(r, old(dest.blobs), old(BlobsOf(thirdLeg)))
    ensures outcome != Spins ==>
              (NeverLost(old(src.blobs), trace) <==>
                 || src != FirstHop(dest, thirdLeg) || !removeSrc
                 || forall i: nat :: i < |ToCopy(srcList.sent, destList.sent, thirdList.sent)| ==> !TakesAway(faults(i)))
    ensures src != FirstHop(dest, thirdLeg) ==> NeverLost(old(src.blobs), trace)
  {
    ghost var before := Stores(src.blobs, dest.blobs, BlobsOf(thirdLeg));
    var hop := FirstHop(dest, thirdLeg);
    ghost var first := Snapshot(src.blobs, hop.blobs);
    stats, outcome, trace, job := PassTo(src, hop, srcList, destList, thirdLeg != null, thirdList, removeSrc, faults);
    ghost var last := Snapshot(src.blobs, hop.blobs);
    PassLoses(srcList, destList, thirdList, removeSrc, faults, first, last, stats, outcome, trace, job);
    if outcome == Returned(false) {
      ghost var after := Stores(src.blobs, dest.blobs, BlobsOf(thirdLeg));
      NilEffect(srcList, destList, thirdList, removeSrc, faults, first, last, stats, trace, job, before, after);
    }
  }

  /** The planned job depends on the faults alone. */
  lemma Settled(srcList: Listing, destList: Listing, thirdList: Listing, src: map<Ref, nat>, trace: Trace, job: Job, first: Snapshot, last: Snapshot)
    requires Lists(srcList, src) && first.src == src && IsTrace(trace, job, first, last)
    requires job.blobs == ToCopy(srcList.sent, destList.sent, thirdList.sent)
    ensures OnSource(src, job.blobs) && Gone(trace, job, |job.blobs|) == TakenAway(job)
    ensures Tally(trace, job, |job.blobs|).errorCount == 0 <==>
            AllFine(PlannedJob(srcList, destList, thirdList, job.removeSrc, job.faults, false))
  {
    ToCopyOnSource(srcList, destList, thirdList.sent, src);
    GoneIs(trace, job, first, last);
    CleanIff(trace, job, first, last);
    var planned := PlannedJob(srcList, destList, thirdList, job.removeSrc, job.faults, false);
    assert planned.blobs == job.blobs && planned.faults == job.faults;
  }

  /** A pass over one store as source and destination, with removeSrc, whose destination enumeration
      fails before it sends anything: every blob counts as missing, is received back and removed. */
  method PassOverItself(store: Storage, srcList: Listing) returns (outcome: Outcome)
    requires Lists(srcList, store.blobs) && srcList.ending == Complete
    modifies store
    ensures outcome == Returned(true) && store.blobs == map[]
  {
    var (destList, thirdList) := (Listing([], Failed), Listing([], Complete));
    ghost var before := store.blobs;
    MissingNothing(srcList.sent);
    var stats, trace;
    ghost var job;
    stats, outcome, trace, job := DoPass(store, store, null, true, srcList, destList, thirdList, _ => NO_FAULT);
    Emptied(srcList, trace, job, Snapshot(before, before), Snapshot(store.blobs, store.blobs), stats, outcome);
  }

  lemma Emptied(srcList: Listing, trace: Trace, job: Job, first: Snapshot, last: Snapshot, stats: Stats, outcome: Outcome)
    requires Lists(srcList, first.src) && srcList.ending == Complete
    requires PassDone(srcList, Listing([], Failed), Listing([], Complete), true, _ => NO_FAULT, first, last, stats, outcome, trace, job)
    ensures outcome == Returned(true) && last.src == map[]
  {
    MissingNothing(srcList.sent);
    assert !HasTwins(srcList.sent, []);
    AllTaken(srcList, first.src, job);
    ToCopyOnSource(srcList, Listing([], Failed), [], first.src);
    GoneIs(trace, job, first, last);
    StatesCopied(trace, job, |job.blobs|);
    assert forall r :: r !in first.src - TakenAway(job);
  }

  lemma AllTaken(srcList: Listing, src: map<Ref, nat>, job: Job)
    requires Lists(srcList, src) && srcList.ending == Complete && job.blobs == srcList.sent && job.removeSrc
    requires forall i: nat :: job.faults(i) == NO_FAULT
    ensures forall r :: r in src ==> r in TakenAway(job)
  {
    forall r | r in src ensures r in TakenAway(job) {
      var i :| 0 <= i < |srcList.sent| && srcList.sent[i].ref == r;
      assert job.blobs[i].ref == r && TakesAway(job.faults(i));
    }
  }
}
