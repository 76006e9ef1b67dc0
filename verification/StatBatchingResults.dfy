/** What the requests and calls of a run of the stat batching protocol get in the end. */
module StatBatchingResults {
  import opened Collections
  import opened Options
  import opened BlobRef
  import opened Enumeration
  import opened StatBatching
  import opened StatBatchingSafety

  // ---- What is delivered ----------------------------------------------------------------------------

  /** Where doStat found r. */
  ghost function Places(found: seq<SizedRef>, r: Ref, n: nat): set<nat>
    requires n <= |found|
  {
    set i: nat | i < n && found[i].ref == r
  }

  /** got is all that was found for r, in the order in which it was found. */
  ghost predicate AllFor(found: seq<SizedRef>, r: Ref, got: seq<SizedRef>) {
    && Picks(found, Places(found, r, |found|), got)
    && forall sr :: multiset(got)[sr] == if sr.ref == r then multiset(found)[sr] else 0
  }

  lemma {:induction false} FoundPicked(found: seq<SizedRef>, r: Ref, n: nat)
    requires n <= |found|
    ensures Picks(found, Places(found, r, n), FoundFor(found[..n], r))
  {
    if n == 0 {
      assert Places(found, r, 0) == {};
      PicksNone(found);
    } else {
      var k := n - 1;
      FoundPicked(found, r, k);
      assert found[..n][..k] == found[..k];
      assert Places(found, r, n) == if found[k].ref == r then Places(found, r, k) + {k} else Places(found, r, k);
      if found[k].ref == r { PicksSnoc(found, Places(found, r, k), FoundFor(found[..k], r), k); }
    }
  }

  lemma {:induction false} FoundBag(found: seq<SizedRef>, r: Ref, sr: SizedRef)
    ensures multiset(FoundFor(found, r))[sr] == if sr.ref == r then multiset(found)[sr] else 0
  {
    if found != [] {
      var k := |found| - 1;
      FoundBag(found[..k], r, sr);
      assert found == found[..k] + [found[k]];
    }
  }

  lemma FoundIsAll(found: seq<SizedRef>, r: Ref)
    ensures AllFor(found, r, FoundFor(found, r))
  {
    FoundPicked(found, r, |found|);
    assert found[..|found|] == found;
    forall sr ensures multiset(FoundFor(found, r))[sr] == if sr.ref == r then multiset(found)[sr] else 0 { FoundBag(found, r, sr); }
  }

  /** Nothing, or what was found for r, is for r. */
  lemma FoundIsFor(found: seq<SizedRef>, r: Ref)
    ensures forall sr :: sr in FoundFor(found, r) ==> sr.ref == r
  {
    forall sr | sr in FoundFor(found, r) ensures sr.ref == r {
      FoundBag(found, r, sr);
      assert multiset(FoundFor(found, r))[sr] > 0;
    }
  }

  /** A request that got something is in the batch of a worker, or answered. */
  lemma WhereIs(s: Sys, id: nat) returns (w: nat)
    requires Inv(s) && id < |s.refs|
    ensures s.replies[id] == [] && id !in At(s.pend, s.refs[id]) ==> InBatch(s, w, id)
  {
    w := 0;
    assert Once(s.refs, s.pend, s.workers, s.replies, id);
    OccIn(s.pend, s.refs[id], id);
    if s.replies[id] == [] && id !in At(s.pend, s.refs[id]) {
      w := Holder(s.workers, s.refs[id], id);
      OccIn(s.workers[w].batch, s.refs[id], id);
    }
  }

  lemma OnlyOwn(s: Sys, id: nat)
    requires Inv(s) && id < |s.refs|
    ensures forall sr :: sr in s.delivered[id] ==> sr.ref == s.refs[id]
  {
    var w := WhereIs(s, id);
    if s.replies[id] != [] {
      FoundIsFor(s.replies[id][0].found, s.refs[id]);
    } else if id !in At(s.pend, s.refs[id]) {
      assert FromBatch(s.refs, s.workers[w], s.delivered);
      if s.workers[w].phase.Replying? { FoundIsFor(s.workers[w].phase.outcome.found, s.refs[id]); }
    }
  }

  // ---- Who answers ----------------------------------------------------------------------------------

  /** One of the first n steps was a doStat call with this outcome for a batch that had the request. */
  ghost predicate StatBefore(states: seq<Sys>, actions: seq<Action>, n: nat, id: nat, o: Outcome) {
    exists k: nat, w: nat :: k < n && k < |actions| && k < |states| && actions[k] == Stat(w, o) && InBatch(states[k], w, id)
  }

  /** The request is about to get this reply, or has got it. */
  ghost predicate Gets(s: Sys, id: nat, o: Outcome) {
    || (exists w :: InBatch(s, w, id) && s.workers[w].phase == Replying(o))
    || (id < |s.replies| && o in s.replies[id])
  }

  lemma StatGets(s: Sys, w: nat, o: Outcome, s': Sys, id: nat, o': Outcome)
    requires AfterStat(s, w, o) == Some(s') && Gets(s', id, o')
    ensures Gets(s, id, o') || (o' == o && InBatch(s, w, id))
  {
    if v :| InBatch(s', v, id) && s'.workers[v].phase == Replying(o') {
      assert InBatch(s, v, id);
    }
  }

  lemma ReplyGets(s: Sys, w: nat, r: Ref, s': Sys, id: nat, o: Outcome)
    requires Inv(s) && AfterReply(s, w, r) == Some(s') && Gets(s', id, o)
    ensures Gets(s, id, o)
  {
    var batch := s.workers[w].batch;
    if v :| InBatch(s', v, id) && s'.workers[v].phase == Replying(o) {
      if v == w { ServedIn(batch, r, s.refs[id], id); }
      assert InBatch(s, v, id) && s.workers[v].phase == Replying(o);
    } else if o !in s.replies[id] {
      LedgerReply(s.refs, s.pend, s.workers, s.replies, w, r, s.workers[w].phase.outcome);
      assert InBatch(s, w, id) && s.workers[w].phase == Replying(o);
    }
  }

  lemma TakeGets(s: Sys, w: nat, chosen: set<Ref>, s': Sys, id: nat, o: Outcome)
    requires AfterTake(s, w, chosen) == Some(s') && Gets(s', id, o)
    ensures Gets(s, id, o)
  {
    if v :| InBatch(s', v, id) && s'.workers[v].phase == Replying(o) {
      assert v != w && v < |s.workers|;
      assert InBatch(s, v, id);
    }
  }

  lemma AskGets(s: Sys, rs: seq<Ref>, s': Sys, id: nat, o: Outcome)
    requires Inv(s) && AfterAsk(s, rs) == Some(s') && Gets(s', id, o)
    ensures Gets(s, id, o)
  {
    if v :| InBatch(s', v, id) && s'.workers[v].phase == Replying(o) {
      BatchIds(s.workers[v].batch, s.refs, s'.refs[id], id);
      assert InBatch(s, v, id);
    }
  }

  lemma BatchIds(batch: Pending, refs: seq<Ref>, r: Ref, id: nat)
    requires Keyed(batch, refs) && id in At(batch, r)
    ensures id < |refs| && refs[id] == r
  {
    var i :| 0 <= i < |batch[r]| && batch[r][i] == id;
  }

  /** What a request gets was going to be got before, or comes from the doStat call of this step. */
  lemma StepGets(s: Sys, a: Action, s': Sys, id: nat, o: Outcome)
    requires Inv(s) && After(s, a) == Some(s') && Gets(s', id, o)
    ensures Gets(s, id, o) || exists w: nat :: a == Stat(w, o) && InBatch(s, w, id)
  {
    match a
    case Ask(rs) => AskGets(s, rs, s', id, o);
    case Take(w, chosen) => TakeGets(s, w, chosen, s', id, o);
    case Stat(w, o') => StatGets(s, w, o', s', id, o);
    case Reply(w, r) => ReplyGets(s, w, r, s', id, o);
    case Kick(c) => KickGets(s, c, s', id, o);
    case Await(c) => AwaitGets(s, c, s', id, o);
  }

  lemma KickGets(s: Sys, c: nat, s': Sys, id: nat, o: Outcome)
    requires AfterKick(s, c) == Some(s') && Gets(s', id, o)
    ensures Gets(s, id, o)
  {
    if v :| InBatch(s', v, id) && s'.workers[v].phase == Replying(o) {
      assert InBatch(s, v, id);
    }
  }

  lemma AwaitGets(s: Sys, c: nat, s': Sys, id: nat, o: Outcome)
    requires AfterAwait(s, c) == Some(s') && Gets(s', id, o)
    ensures Gets(s, id, o)
  {
    if v :| InBatch(s', v, id) && s'.workers[v].phase == Replying(o) {
      assert InBatch(s, v, id);
    }
  }

  lemma {:induction false} GetsFromStat(states: seq<Sys>, actions: seq<Action>, n: nat, id: nat, o: Outcome)
    requires IsRun(states, actions) && n <= |actions| && Gets(states[n], id, o)
    ensures StatBefore(states, actions, n, id, o)
  {
    if n > 0 {
      var k := n - 1;
      RunInv(states, actions, k);
      StepGets(states[k], actions[k], states[n], id, o);
      if Gets(states[k], id, o) { GetsFromStat(states, actions, k, id, o); }
    }
  }

  /** In every state of every run: a request is only ever sent blobs of its own ref. If it has been
      answered, then once, with the outcome of a doStat call for a batch that it was in, and it has
      been sent exactly what that call found for it, in that order. */
  lemma RequestsGetTheirOwn(states: seq<Sys>, actions: seq<Action>, n: nat, id: nat)
    requires IsRun(states, actions) && n <= |actions| && id < |states[n].refs|
    ensures |states[n].delivered| == |states[n].replies| == |states[n].refs|
    ensures forall sr :: sr in states[n].delivered[id] ==> sr.ref == states[n].refs[id]
    ensures states[n].replies[id] != [] ==>
              && |states[n].replies[id]| == 1
              && AllFor(states[n].replies[id][0].found, states[n].refs[id], states[n].delivered[id])
              && StatBefore(states, actions, n, id, states[n].replies[id][0])
  {
    var s := states[n];
    RunInv(states, actions, n);
    OnlyOwn(s, id);
    assert Once(s.refs, s.pend, s.workers, s.replies, id);
    if s.replies[id] != [] {
      FoundIsAll(s.replies[id][0].found, s.refs[id]);
      assert Gets(s, id, s.replies[id][0]);
      GetsFromStat(states, actions, n, id, s.replies[id][0]);
    }
  }

  // ---- Who waits ------------------------------------------------------------------------------------

  /** Caller c made the requests first, first + 1, ... for the refs rs. */
  ghost predicate CallFor(s: Sys, c: nat, first: nat, rs: seq<Ref>) {
    && c < |s.callers| && s.callers[c].first == first && s.callers[c].n == |rs|
    && first + |rs| <= |s.refs| && forall i :: 0 <= i < |rs| ==> s.refs[first + i] == rs[i]
  }

  lemma StepCallFor(s: Sys, a: Action, s': Sys, c: nat, first: nat, rs: seq<Ref>)
    requires After(s, a) == Some(s') && CallFor(s, c, first, rs)
    ensures CallFor(s', c, first, rs)
  {
    match a
    case Ask(more) => assert forall i :: 0 <= i < |s.refs| ==> s'.refs[i] == s.refs[i];
    case Take(w, chosen) => assert s'.callers == s.callers && s'.refs == s.refs;
    case _ =>
  }

  /** The call that asked in step k is known by its place among the callers, and its requests are
      for the refs that it asked for. */
  lemma {:induction false} CallStays(states: seq<Sys>, actions: seq<Action>, k: nat, n: nat)
    requires IsRun(states, actions) && k < n <= |actions| && actions[k].Ask?
    ensures CallFor(states[n], |states[k].callers|, |states[k].refs|, actions[k].rs)
  {
    if n == k + 1 {
      assert After(states[k], actions[k]) == Some(states[k + 1]);
    } else {
      CallStays(states, actions, k, n - 1);
      StepCallFor(states[n - 1], actions[n - 1], states[n], |states[k].callers|, |states[k].refs|, actions[k].rs);
    }
  }

  /** The request has its one reply, and all that was found for its ref. */
  ghost predicate HasAll(s: Sys, id: nat) {
    && id < |s.refs| == |s.replies| == |s.delivered|
    && |s.replies[id]| == 1 && AllFor(s.replies[id][0].found, s.refs[id], s.delivered[id])
  }

  lemma AllServed(states: seq<Sys>, actions: seq<Action>, id: nat)
    requires IsRun(states, actions) && id < |states[|actions|].refs|
    requires forall a :: After(states[|actions|], a).Some? ==> a.Ask?
    ensures HasAll(states[|actions|], id)
  {
    QuietMeansAnswered(states, actions);
    RequestsGetTheirOwn(states, actions, |actions|, id);
  }

  /** In a run after which only a new call could come, every call that was made has returned, with an
      error if and only if a doStat call that answered one of its requests failed, and each of its
      requests has been sent what was found for it. */
  lemma EveryCallReturns(states: seq<Sys>, actions: seq<Action>, k: nat)
    requires IsRun(states, actions) && k < |actions| && actions[k].Ask?
    requires forall a :: After(states[|actions|], a).Some? ==> a.Ask?
    ensures var (s, c, first, rs) := (states[|actions|], |states[k].callers|, |states[k].refs|, actions[k].rs);
            && CallFor(s, c, first, rs) && s.callers[c].Returned?
            && (forall id: nat :: first <= id < first + |rs| ==> HasAll(s, id))
            && (s.callers[c].failed <==> exists id: nat :: first <= id < first + |rs| && HasAll(s, id) && s.replies[id][0].failed)
  {
    var (s, c, first, rs) := (states[|actions|], |states[k].callers|, |states[k].refs|, actions[k].rs);
    CallStays(states, actions, k, |actions|);
    QuietMeansAnswered(states, actions);
    forall id: nat | first <= id < first + |rs| ensures HasAll(s, id) { AllServed(states, actions, id); }
    FailedIff(s, first, |rs|);
  }

  lemma FailedIff(s: Sys, first: nat, n: nat)
    requires first + n <= |s.replies| && forall id: nat :: first <= id < first + n ==> HasAll(s, id)
    ensures !Clean(s.replies, first, n) <==> exists id: nat :: first <= id < first + n && HasAll(s, id) && s.replies[id][0].failed
  {
    if !Clean(s.replies, first, n) {
      var id :| first <= id < first + n && !(s.replies[id] != [] && !s.replies[id][0].failed);
      assert HasAll(s, id);
    }
  }
}
