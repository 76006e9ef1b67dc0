/** What every run of the stat batching protocol keeps, and that it answers everything. */
module StatBatchingSafety {
  import opened Options
  import opened BlobRef
  import opened Enumeration
  import opened StatBatching

  // ---- Nothing is in two places ---------------------------------------------------------------------

  lemma {:induction false} BatchesAtLeast(ws: seq<Worker>, w: nat, r: Ref, id: nat)
    requires w < |ws|
    ensures InBatches(ws, r, id) >= Occ(ws[w].batch, r, id)
  {
    var k := |ws| - 1;
    if w < k {
      assert ws[..k][w] == ws[w];
      BatchesAtLeast(ws[..k], w, r, id);
    }
  }

  lemma {:induction false} BatchesTwo(ws: seq<Worker>, w: nat, v: nat, r: Ref, id: nat)
    requires w < v < |ws|
    ensures InBatches(ws, r, id) >= Occ(ws[w].batch, r, id) + Occ(ws[v].batch, r, id)
  {
    var k := |ws| - 1;
    assert ws[..k][w] == ws[w];
    if v < k {
      assert ws[..k][v] == ws[v];
      BatchesTwo(ws[..k], w, v, r, id);
    } else {
      BatchesAtLeast(ws[..k], w, r, id);
    }
  }

  lemma OccIn(m: Pending, r: Ref, id: nat)
    ensures Occ(m, r, id) > 0 <==> id in At(m, r)
  {
  }

  lemma NotElsewhere(s: Sys, w: nat, id: nat)
    requires Ledger(s.refs, s.pend, s.workers, s.replies) && w < |s.workers| && id < |s.refs|
    requires id in At(s.workers[w].batch, s.refs[id])
    ensures id !in At(s.pend, s.refs[id]) && s.replies[id] == []
    ensures forall v :: 0 <= v < |s.workers| && v != w ==> id !in At(s.workers[v].batch, s.refs[id])
  {
    var r := s.refs[id];
    assert Once(s.refs, s.pend, s.workers, s.replies, id);
    OccIn(s.pend, r, id);
    OccIn(s.workers[w].batch, r, id);
    BatchesAtLeast(s.workers, w, r, id);
    forall v | 0 <= v < |s.workers| && v != w ensures id !in At(s.workers[v].batch, r) {
      if v < w { BatchesTwo(s.workers, v, w, r, id); } else { BatchesTwo(s.workers, w, v, r, id); }
      OccIn(s.workers[v].batch, r, id);
    }
  }

  // ---- Who is awake ---------------------------------------------------------------------------------

  lemma ReadyKept(ws: seq<Worker>, w: nat, x: Worker)
    requires w < |ws| && ws[w].phase != Ready
    ensures HasReady(ws) ==> HasReady(ws[w := x])
  {
    if i :| 0 <= i < |ws| && ws[i].phase == Ready { assert ws[w := x][i].phase == Ready; }
  }

  lemma KickingKept(cs: seq<Caller>, c: nat, x: Caller)
    requires c < |cs| && !cs[c].Kicking?
    ensures HasKicking(cs) ==> HasKicking(cs[c := x])
  {
    if i :| 0 <= i < |cs| && cs[i].Kicking? { assert cs[c := x][i].Kicking?; }
  }

  lemma LastReady(ws: seq<Worker>)
    ensures HasReady(ws + [Worker(Ready, map[])])
  {
    assert (ws + [Worker(Ready, map[])])[|ws|].phase == Ready;
  }

  // ---- Callers --------------------------------------------------------------------------------------

  /** Replies are only added. */
  ghost predicate Grows(replies: seq<seq<Outcome>>, replies': seq<seq<Outcome>>) {
    |replies| <= |replies'| && forall i :: 0 <= i < |replies| && replies[i] != [] ==> replies'[i] == replies[i]
  }

  lemma CallersGrow(replies: seq<seq<Outcome>>, replies': seq<seq<Outcome>>, cs: seq<Caller>)
    requires CallersOk(replies, cs) && Grows(replies, replies')
    ensures CallersOk(replies', cs)
  {
    forall c | 0 <= c < |cs| ensures CallerOk(replies', cs[c]) {
      assert CallerOk(replies, cs[c]);
      CallerGrows(replies, replies', cs[c]);
    }
  }

  lemma CallerGrows(replies: seq<seq<Outcome>>, replies': seq<seq<Outcome>>, c: Caller)
    requires CallerOk(replies, c) && Grows(replies, replies')
    ensures CallerOk(replies', c)
  {
    if c.Returned? && c.failed {
      var i :| c.first <= i < c.first + c.n && replies[i] != [] && replies[i][0].failed;
      assert replies'[i] == replies[i];
    }
  }

  // ---- Every step -----------------------------------------------------------------------------------

  lemma {:induction false} Queued(m: Pending, rs: seq<Ref>, first: nat, r: Ref, id: nat)
    ensures id in At(Enqueue(m, rs, first), r) ==> id in At(m, r) || id >= first
  {
    if rs != [] { Queued(m, rs[..|rs| - 1], first, r, id); }
  }

  lemma AskInv(s: Sys, rs: seq<Ref>, s': Sys)
    requires Inv(s) && AfterAsk(s, rs) == Some(s')
    ensures Inv(s')
  {
    LedgerEnqueue(s.refs, s.pend, s.workers, s.replies, rs);
    CallersGrow(s.replies, s'.replies, s.callers);
    AskDelivered(s, rs, s');
    assert s'.callers[|s.callers|].Kicking?;
  }

  lemma AskDelivered(s: Sys, rs: seq<Ref>, s': Sys)
    requires Inv(s) && AfterAsk(s, rs) == Some(s')
    ensures FromPend(s'.refs, s'.pend, s'.delivered) && FromReply(s'.refs, s'.replies, s'.delivered)
    ensures forall w :: 0 <= w < |s.workers| ==> FromBatch(s'.refs, s.workers[w], s'.delivered)
  {
    forall id | 0 <= id < |s'.refs| && id in At(s'.pend, s'.refs[id]) ensures s'.delivered[id] == [] {
      Queued(s.pend, rs, |s.refs|, s'.refs[id], id);
    }
    forall w | 0 <= w < |s.workers| ensures FromBatch(s'.refs, s.workers[w], s'.delivered) {
      BatchWidens(s, w, s');
    }
  }

  lemma BatchWidens(s: Sys, w: nat, s': Sys)
    requires w < |s.workers| && Keyed(s.workers[w].batch, s.refs) && |s.delivered| == |s.refs| <= |s'.refs| == |s'.delivered|
    requires s'.refs[..|s.refs|] == s.refs && s'.delivered[..|s.refs|] == s.delivered && FromBatch(s.refs, s.workers[w], s.delivered)
    ensures FromBatch(s'.refs, s.workers[w], s'.delivered)
  {
    forall id | 0 <= id < |s'.refs| && id in At(s.workers[w].batch, s'.refs[id])
      ensures id < |s.refs| && s'.delivered[id] == s.delivered[id] && s'.refs[id] == s.refs[id]
    {
      var l := At(s.workers[w].batch, s'.refs[id]);
      var i :| 0 <= i < |l| && l[i] == id;
    }
  }

  lemma KickInv(s: Sys, c: nat, s': Sys)
    requires Inv(s) && AfterKick(s, c) == Some(s')
    ensures Inv(s')
  {
    LedgerSpawn(s.refs, s.pend, s.workers, s.replies);
    LastReady(s.workers);
  }

  lemma TakeLedger(s: Sys, w: nat, chosen: set<Ref>, s': Sys)
    requires Inv(s) && AfterTake(s, w, chosen) == Some(s')
    ensures Ledger(s'.refs, s'.pend, s'.workers, s'.replies)
  {
    assert WorkerOk(s.workers[w]);
    if s.pend == map[] {
      LedgerPhase(s.refs, s.pend, s.workers, s.replies, w, Done);
    } else {
      LedgerTake(s.refs, s.pend, s.workers, s.replies, w, Statting, chosen);
      LedgerSpawn(s.refs, s.pend - chosen, s.workers[w := Worker(Statting, Only(s.pend, chosen))], s.replies);
    }
  }

  lemma TakeInv(s: Sys, w: nat, chosen: set<Ref>, s': Sys)
    requires Inv(s) && AfterTake(s, w, chosen) == Some(s')
    ensures Inv(s')
  {
    TakeLedger(s, w, chosen, s');
    TakeWorkers(s, w, chosen, s');
    if s.pend != map[] {
      if |chosen| == MAX_STAT_PER_REQ {
        LastReady(s.workers[w := Worker(Statting, Only(s.pend, chosen))]);
      } else {
        assert s.pend - chosen == map[];
      }
    }
  }

  lemma TakeWorkers(s: Sys, w: nat, chosen: set<Ref>, s': Sys)
    requires Inv(s) && AfterTake(s, w, chosen) == Some(s')
    ensures FromPend(s'.refs, s'.pend, s'.delivered)
    ensures forall v :: 0 <= v < |s'.workers| ==> WorkerOk(s'.workers[v]) && FromBatch(s'.refs, s'.workers[v], s'.delivered)
  {
    var batch := Only(s.pend, chosen);
    assert batch.Keys == chosen;
    assert FromBatch(s.refs, Worker(Statting, batch), s.delivered) by {
      forall id | 0 <= id < |s.refs| ensures id in At(batch, s.refs[id]) ==> id in At(s.pend, s.refs[id]) {}
    }
    forall id | 0 <= id < |s.refs| ensures id in At(s'.pend, s.refs[id]) ==> id in At(s.pend, s.refs[id]) {}
  }

  lemma StatDelivered(s: Sys, w: nat, o: Outcome, s': Sys)
    requires Inv(s) && AfterStat(s, w, o) == Some(s')
    ensures FromPend(s'.refs, s'.pend, s'.delivered) && FromReply(s'.refs, s'.replies, s'.delivered)
    ensures forall v :: 0 <= v < |s.workers| ==> FromBatch(s'.refs, s'.workers[v], s'.delivered)
  {
    assert FromBatch(s.refs, s.workers[w], s.delivered);
    forall id | 0 <= id < |s.refs| && id in At(s.workers[w].batch, s.refs[id])
      ensures id !in At(s.pend, s.refs[id]) && s.replies[id] == []
      ensures forall v :: 0 <= v < |s.workers| && v != w ==> id !in At(s.workers[v].batch, s.refs[id])
    {
      NotElsewhere(s, w, id);
    }
    forall v | 0 <= v < |s.workers| ensures FromBatch(s'.refs, s'.workers[v], s'.delivered) {
      assert FromBatch(s.refs, s.workers[v], s.delivered);
    }
  }

  lemma StatInv(s: Sys, w: nat, o: Outcome, s': Sys)
    requires Inv(s) && AfterStat(s, w, o) == Some(s')
    ensures Inv(s')
  {
    LedgerPhase(s.refs, s.pend, s.workers, s.replies, w, Replying(o));
    StatDelivered(s, w, o, s');
    ReadyKept(s.workers, w, s'.workers[w]);
    assert WorkerOk(s.workers[w]);
  }

  lemma ServedIn(batch: Pending, ref: Ref, r: Ref, id: nat)
    requires ref in batch && batch[ref] != []
    ensures id in At(Served(batch, ref), r) ==> id in At(batch, r)
  {
  }

  lemma ReplyDelivered(s: Sys, w: nat, r: Ref, s': Sys)
    requires Inv(s) && AfterReply(s, w, r) == Some(s')
    ensures FromReply(s'.refs, s'.replies, s'.delivered)
    ensures FromBatch(s'.refs, s'.workers[w], s'.delivered)
  {
    var batch := s.workers[w].batch;
    var n := batch[r][0];
    LedgerReply(s.refs, s.pend, s.workers, s.replies, w, r, s.workers[w].phase.outcome);
    assert FromBatch(s.refs, s.workers[w], s.delivered) && n in At(batch, s.refs[n]);
    forall id | 0 <= id < |s.refs| && id in At(Served(batch, r), s.refs[id]) ensures id in At(batch, s.refs[id]) {
      ServedIn(batch, r, s.refs[id], id);
    }
  }

  lemma ReplyInv(s: Sys, w: nat, r: Ref, s': Sys)
    requires Inv(s) && AfterReply(s, w, r) == Some(s')
    ensures Inv(s')
  {
    LedgerReply(s.refs, s.pend, s.workers, s.replies, w, r, s.workers[w].phase.outcome);
    ReplyDelivered(s, w, r, s');
    ReadyKept(s.workers, w, s'.workers[w]);
    CallersGrow(s.replies, s'.replies, s.callers);
    assert WorkerOk(s.workers[w]);
    assert WorkerOk(s'.workers[w]) by { ServedSize(s.workers[w].batch, r); }
  }

  lemma ServedSize(batch: Pending, r: Ref)
    requires r in batch && batch[r] != []
    ensures |Served(batch, r).Keys| <= |batch.Keys|
  {
    if |batch[r]| == 1 { assert Served(batch, r).Keys == batch.Keys - {r}; } else { assert Served(batch, r).Keys == batch.Keys; }
  }

  lemma AwaitInv(s: Sys, c: nat, s': Sys)
    requires Inv(s) && AfterAwait(s, c) == Some(s')
    ensures Inv(s')
  {
    assert CallerOk(s.replies, s.callers[c]);
    KickingKept(s.callers, c, s'.callers[c]);
    assert CallerOk(s.replies, s'.callers[c]);
  }

  /** Every step keeps the invariant. */
  lemma StepInv(s: Sys, a: Action, s': Sys)
    requires Inv(s) && After(s, a) == Some(s')
    ensures Inv(s')
  {
    match a
    case Ask(rs) => AskInv(s, rs, s');
    case Kick(c) => KickInv(s, c, s');
    case Take(w, chosen) => TakeInv(s, w, chosen, s');
    case Stat(w, o) => StatInv(s, w, o, s');
    case Reply(w, r) => ReplyInv(s, w, r, s');
    case Await(c) => AwaitInv(s, c, s');
  }

  /** Every state of every run: nothing is stranded, every request is in one place, batches are
      not too big and what was delivered fits what was replied. */
  lemma {:induction false} RunInv(states: seq<Sys>, actions: seq<Action>, n: nat)
    requires IsRun(states, actions) && n <= |actions|
    ensures Inv(states[n])
  {
    if n > 0 {
      RunInv(states, actions, n - 1);
      StepInv(states[n - 1], actions[n - 1], states[n]);
    }
  }

  // ---- Equal refs share one stat --------------------------------------------------------------------

  /** The request is in the batch of worker w. */
  ghost predicate InBatch(s: Sys, w: int, id: nat) {
    0 <= w < |s.workers| && id < |s.refs| && id in At(s.workers[w].batch, s.refs[id])
  }

  ghost predicate Answered(s: Sys, id: nat, o: Outcome) { id < |s.replies| && s.replies[id] == [o] }

  /** One of the two is answered by the call that is about to answer the other. */
  ghost predicate HalfAnswered(s: Sys, w: int, i: nat, j: nat) {
    InBatch(s, w, i) && s.workers[w].phase.Replying? && Answered(s, j, s.workers[w].phase.outcome)
  }

  /** Two requests that share all they get from now on. */
  ghost predicate Together(s: Sys, i: nat, j: nat) {
    && i < |s.refs| && j < |s.refs| && s.refs[i] == s.refs[j]
    && (|| (i in At(s.pend, s.refs[i]) && j in At(s.pend, s.refs[j]))
        || (exists w :: InBatch(s, w, i) && InBatch(s, w, j))
        || (exists w :: HalfAnswered(s, w, i, j))
        || (exists w :: HalfAnswered(s, w, j, i))
        || (exists o :: Answered(s, i, o) && Answered(s, j, o)))
  }

  lemma {:induction false} QueuedStays(m: Pending, rs: seq<Ref>, first: nat, r: Ref, id: nat)
    ensures id in At(m, r) ==> id in At(Enqueue(m, rs, first), r)
  {
    if rs != [] { QueuedStays(m, rs[..|rs| - 1], first, r, id); }
  }

  /** A batch without its first request for r. */
  lemma ServedStays(batch: Pending, ref: Ref, r: Ref, id: nat)
    requires ref in batch && batch[ref] != [] && id in At(batch, r) && id != batch[ref][0]
    ensures id in At(Served(batch, ref), r)
  {
    if r == ref {
      var l := batch[ref];
      var k :| 0 <= k < |l| && l[k] == id;
      assert l[1..][k - 1] == id;
    }
  }

  /** Where the requests of worker w and the answered ones stand after one reply. */
  lemma ReplyMoves(s: Sys, w: nat, r: Ref, s': Sys, id: nat)
    requires Inv(s) && AfterReply(s, w, r) == Some(s') && id < |s.refs|
    ensures forall o :: Answered(s, id, o) ==> Answered(s', id, o)
    ensures forall v :: InBatch(s, v, id) ==>
              InBatch(s', v, id) || (v == w && Answered(s', id, s.workers[w].phase.outcome))
  {
    LedgerReply(s.refs, s.pend, s.workers, s.replies, w, r, s.workers[w].phase.outcome);
    var n := s.workers[w].batch[r][0];
    if InBatch(s, w, id) && id != n { ServedStays(s.workers[w].batch, r, s.refs[id], id); }
    assert id == n ==> Answered(s', id, s.workers[w].phase.outcome);
    if id == n {
      NotElsewhere(s, w, n);
    }
  }

  lemma ReplyTogether(s: Sys, w: nat, r: Ref, s': Sys, i: nat, j: nat)
    requires Inv(s) && AfterReply(s, w, r) == Some(s') && Together(s, i, j)
    ensures Together(s', i, j)
  {
    ReplyMoves(s, w, r, s', i);
    ReplyMoves(s, w, r, s', j);
    if v :| InBatch(s, v, i) && InBatch(s, v, j) {
      if !(InBatch(s', v, i) && InBatch(s', v, j)) {
        var o := s.workers[w].phase.outcome;
        assert (Answered(s', i, o) && Answered(s', j, o)) || HalfAnswered(s', v, i, j) || HalfAnswered(s', v, j, i);
      }
    }
    if v :| HalfAnswered(s, v, i, j) { HalfMoves(s, w, r, s', v, i, j); }
    if v :| HalfAnswered(s, v, j, i) { HalfMoves(s, w, r, s', v, j, i); }
  }

  lemma HalfMoves(s: Sys, w: nat, r: Ref, s': Sys, v: int, i: nat, j: nat)
    requires Inv(s) && AfterReply(s, w, r) == Some(s') && HalfAnswered(s, v, i, j) && j < |s.refs|
    ensures HalfAnswered(s', v, i, j) || exists o :: Answered(s', i, o) && Answered(s', j, o)
  {
    ReplyMoves(s, w, r, s', i);
    ReplyMoves(s, w, r, s', j);
    var o := s.workers[v].phase.outcome;
    assert Answered(s', j, o);
  }

  /** Batches, the calls that answer them and answers stay. */
  ghost predicate Carries(s: Sys, s': Sys) {
    && |s.refs| <= |s'.refs| && (forall i :: 0 <= i < |s.refs| ==> s'.refs[i] == s.refs[i])
    && (forall v, id :: InBatch(s, v, id) ==> InBatch(s', v, id))
    && (forall v :: 0 <= v < |s.workers| <= |s'.workers| && s.workers[v].phase.Replying? ==> s'.workers[v].phase == s.workers[v].phase)
    && |s.workers| <= |s'.workers|
    && (forall id, o :: Answered(s, id, o) ==> Answered(s', id, o))
  }

  ghost predicate BothPending(s: Sys, i: nat, j: nat) {
    i < |s.refs| && j < |s.refs| && i in At(s.pend, s.refs[i]) && j in At(s.pend, s.refs[j])
  }

  lemma CarriedTogether(s: Sys, s': Sys, i: nat, j: nat)
    requires Carries(s, s') && Together(s, i, j) && (BothPending(s, i, j) ==> Together(s', i, j))
    ensures Together(s', i, j)
  {
    if v :| InBatch(s, v, i) && InBatch(s, v, j) {
      assert InBatch(s', v, i) && InBatch(s', v, j);
    } else if v :| HalfAnswered(s, v, i, j) {
      assert HalfAnswered(s', v, i, j);
    } else if v :| HalfAnswered(s, v, j, i) {
      assert HalfAnswered(s', v, j, i);
    } else if o :| Answered(s, i, o) && Answered(s, j, o) {
      assert Answered(s', i, o) && Answered(s', j, o);
    }
  }

  lemma AskTogether(s: Sys, rs: seq<Ref>, s': Sys, i: nat, j: nat)
    requires Inv(s) && AfterAsk(s, rs) == Some(s') && Together(s, i, j)
    ensures Together(s', i, j)
  {
    QueuedStays(s.pend, rs, |s.refs|, s.refs[i], i);
    QueuedStays(s.pend, rs, |s.refs|, s.refs[j], j);
    assert Carries(s, s') by {
      assert forall id, o :: Answered(s, id, o) ==> Answered(s', id, o);
    }
    CarriedTogether(s, s', i, j);
  }

  lemma KickTogether(s: Sys, c: nat, s': Sys, i: nat, j: nat)
    requires AfterKick(s, c) == Some(s') && Together(s, i, j)
    ensures Together(s', i, j)
  {
    assert Carries(s, s');
    CarriedTogether(s, s', i, j);
  }

  lemma StatTogether(s: Sys, w: nat, o: Outcome, s': Sys, i: nat, j: nat)
    requires AfterStat(s, w, o) == Some(s') && Together(s, i, j)
    ensures Together(s', i, j)
  {
    assert Carries(s, s');
    CarriedTogether(s, s', i, j);
  }

  lemma AwaitTogether(s: Sys, c: nat, s': Sys, i: nat, j: nat)
    requires AfterAwait(s, c) == Some(s') && Together(s, i, j)
    ensures Together(s', i, j)
  {
    assert Carries(s, s');
    CarriedTogether(s, s', i, j);
  }

  lemma TakeCarries(s: Sys, w: nat, chosen: set<Ref>, s': Sys)
    requires AfterTake(s, w, chosen) == Some(s') && WorkerOk(s.workers[w])
    ensures Carries(s, s')
  {
    forall v, id | InBatch(s, v, id) ensures InBatch(s', v, id) {
      assert v != w;
    }
  }

  lemma TakeTogether(s: Sys, w: nat, chosen: set<Ref>, s': Sys, i: nat, j: nat)
    requires Inv(s) && AfterTake(s, w, chosen) == Some(s') && Together(s, i, j)
    ensures Together(s', i, j)
  {
    TakeCarries(s, w, chosen, s');
    if BothPending(s, i, j) { TakeBoth(s, w, chosen, s', i, j); }
    CarriedTogether(s, s', i, j);
  }

  lemma TakeBoth(s: Sys, w: nat, chosen: set<Ref>, s': Sys, i: nat, j: nat)
    requires AfterTake(s, w, chosen) == Some(s') && BothPending(s, i, j) && s.refs[i] == s.refs[j]
    ensures Together(s', i, j)
  {
    var r := s.refs[i];
    assert s.pend != map[] && s'.refs == s.refs;
    if r in chosen {
      assert At(Only(s.pend, chosen), r) == At(s.pend, r);
      assert s'.workers[w].batch == Only(s.pend, chosen);
      assert InBatch(s', w, i) && InBatch(s', w, j);
    } else {
      assert At(s'.pend, r) == At(s.pend, r);
      assert BothPending(s', i, j);
    }
  }

  lemma StepTogether(s: Sys, a: Action, s': Sys, i: nat, j: nat)
    ensures Inv(s) && After(s, a) == Some(s') && Together(s, i, j) ==> Together(s', i, j)
  {
    if !(Inv(s) && After(s, a) == Some(s') && Together(s, i, j)) { return; }
    match a
    case Ask(rs) => AskTogether(s, rs, s', i, j);
    case Kick(c) => KickTogether(s, c, s', i, j);
    case Take(w, chosen) => TakeTogether(s, w, chosen, s', i, j);
    case Stat(w, o) => StatTogether(s, w, o, s', i, j);
    case Reply(w, r) => ReplyTogether(s, w, r, s', i, j);
    case Await(c) => AwaitTogether(s, c, s', i, j);
  }

  /** They are together in all states from k up to n. */
  ghost predicate StaysTogether(states: seq<Sys>, k: nat, n: nat, i: nat, j: nat) {
    forall m :: k <= m <= n && m < |states| ==> Together(states[m], i, j)
  }

  lemma TogetherMore(states: seq<Sys>, actions: seq<Action>, k: nat, n: nat, i: nat, j: nat)
    ensures IsRun(states, actions) && k <= n && StaysTogether(states, k, n, i, j) ==> StaysTogether(states, k, n + 1, i, j)
  {
    if IsRun(states, actions) && k <= n < |actions| && StaysTogether(states, k, n, i, j) {
      RunInv(states, actions, n);
      StepTogether(states[n], actions[n], states[n + 1], i, j);
    }
  }

  lemma {:induction false} StayTogether(states: seq<Sys>, actions: seq<Action>, k: nat, n: nat, i: nat, j: nat)
    ensures IsRun(states, actions) && k <= n && StaysTogether(states, k, k, i, j) ==> StaysTogether(states, k, n, i, j)
  {
    if k < n {
      StayTogether(states, actions, k, n - 1, i, j);
      TogetherMore(states, actions, k, n - 1, i, j);
    }
  }

  /** Requests for one ref that are pending at the same time are answered by the same doStat call
      and get the same sizes. */
  lemma EqualRefsShareOneStat(states: seq<Sys>, actions: seq<Action>, k: nat, n: nat, i: nat, j: nat)
    requires IsRun(states, actions) && k <= n <= |actions|
    requires i < |states[k].refs| && j < |states[k].refs| && states[k].refs[i] == states[k].refs[j]
    requires i in At(states[k].pend, states[k].refs[i]) && j in At(states[k].pend, states[k].refs[j])
    ensures i < |states[n].replies| && j < |states[n].replies| && |states[n].delivered| == |states[n].replies|
    ensures states[n].replies[i] != [] && states[n].replies[j] != [] ==>
              states[n].replies[i] == states[n].replies[j] && states[n].delivered[i] == states[n].delivered[j]
  {
    var s := states[n];
    assert Together(states[k], i, j) && StaysTogether(states, k, k, i, j);
    StayTogether(states, actions, k, n, i, j);
    assert Together(s, i, j);
    RunInv(states, actions, n);
    assert Once(s.refs, s.pend, s.workers, s.replies, i) && Once(s.refs, s.pend, s.workers, s.replies, j);
    OccIn(s.pend, s.refs[i], i);
    forall w | InBatch(s, w, i) ensures s.replies[i] == [] { NotElsewhere(s, w, i); }
    forall w | InBatch(s, w, j) ensures s.replies[j] == [] { NotElsewhere(s, w, j); }
  }

  // ---- Everything is answered -----------------------------------------------------------------------

  function Unanswered(replies: seq<seq<Outcome>>): nat {
    if replies == [] then 0 else Unanswered(replies[..|replies| - 1]) + if replies[|replies| - 1] == [] then 1 else 0
  }

  function WorkerCost(w: Worker): nat {
    match w.phase case Ready => 1 case Statting => 2 case Replying(_) => 1 case Done => 0
  }

  function WorkersCost(ws: seq<Worker>): nat {
    if ws == [] then 0 else WorkersCost(ws[..|ws| - 1]) + WorkerCost(ws[|ws| - 1])
  }

  function CallerCost(c: Caller): nat {
    match c
    case Kicking(_, n) => n + 3
    case Waiting(_, n, k) => if k <= n then n - k + 1 else 0
    case Returned(_, _, _) => 0
  }

  function CallersCost(cs: seq<Caller>): nat {
    if cs == [] then 0 else CallersCost(cs[..|cs| - 1]) + CallerCost(cs[|cs| - 1])
  }

  /** More than the number of steps left if nothing is asked any more. */
  function Cost(s: Sys): nat {
    Unanswered(s.replies) + 3 * |s.pend.Keys| + WorkersCost(s.workers) + CallersCost(s.callers)
  }

  lemma {:induction false} UnansweredUpdate(replies: seq<seq<Outcome>>, id: nat, o: Outcome)
    requires id < |replies| && replies[id] == []
    ensures Unanswered(replies[id := [o]]) == Unanswered(replies) - 1
  {
    var k := |replies| - 1;
    var replies' := replies[id := [o]];
    if id == k {
      assert replies'[..k] == replies[..k];
    } else {
      assert replies'[..k] == replies[..k][id := [o]];
      UnansweredUpdate(replies[..k], id, o);
    }
  }

  lemma {:induction false} WorkersCostUpdate(ws: seq<Worker>, w: nat, x: Worker)
    requires w < |ws|
    ensures WorkersCost(ws[w := x]) == WorkersCost(ws) - WorkerCost(ws[w]) + WorkerCost(x)
  {
    var k := |ws| - 1;
    if w == k {
      assert ws[w := x][..k] == ws[..k];
    } else {
      assert ws[w := x][..k] == ws[..k][w := x];
      WorkersCostUpdate(ws[..k], w, x);
    }
  }

  lemma WorkersCostSnoc(ws: seq<Worker>, x: Worker)
    ensures WorkersCost(ws + [x]) == WorkersCost(ws) + WorkerCost(x)
  {
    assert (ws + [x])[..|ws|] == ws;
  }

  lemma {:induction false} CallersCostUpdate(cs: seq<Caller>, c: nat, x: Caller)
    requires c < |cs|
    ensures CallersCost(cs[c := x]) == CallersCost(cs) - CallerCost(cs[c]) + CallerCost(x)
  {
    var k := |cs| - 1;
    if c == k {
      assert cs[c := x][..k] == cs[..k];
    } else {
      assert cs[c := x][..k] == cs[..k][c := x];
      CallersCostUpdate(cs[..k], c, x);
    }
  }

  lemma TakeCost(s: Sys, w: nat, chosen: set<Ref>, s': Sys)
    requires AfterTake(s, w, chosen) == Some(s')
    ensures Cost(s') < Cost(s)
  {
    if s.pend == map[] {
      WorkersCostUpdate(s.workers, w, Worker(Done, map[]));
    } else {
      var x := Worker(Statting, Only(s.pend, chosen));
      WorkersCostUpdate(s.workers, w, x);
      WorkersCostSnoc(s.workers[w := x], Worker(Ready, map[]));
      assert s'.pend.Keys == s.pend.Keys - chosen;
      NonEmpty(s.pend);
    }
  }

  lemma NonEmpty(m: Pending)
    requires m != map[]
    ensures m.Keys != {} && |m.Keys| > 0
  {
    assert exists r :: r in m.Keys;
  }

  lemma ReplyCost(s: Sys, w: nat, r: Ref, s': Sys)
    requires Inv(s) && AfterReply(s, w, r) == Some(s')
    ensures Cost(s') < Cost(s)
  {
    var o := s.workers[w].phase.outcome;
    LedgerReply(s.refs, s.pend, s.workers, s.replies, w, r, o);
    var id := s.workers[w].batch[r][0];
    assert s.replies[id] + [o] == [o];
    UnansweredUpdate(s.replies, id, o);
    WorkersCostUpdate(s.workers, w, s'.workers[w]);
  }

  lemma KickCost(s: Sys, c: nat, s': Sys)
    requires AfterKick(s, c) == Some(s')
    ensures Cost(s') < Cost(s)
  {
    WorkersCostSnoc(s.workers, Worker(Ready, map[]));
    CallersCostUpdate(s.callers, c, s'.callers[c]);
  }

  lemma AwaitCost(s: Sys, c: nat, s': Sys)
    requires AfterAwait(s, c) == Some(s') && CallersOk(s.replies, s.callers)
    ensures Cost(s') < Cost(s)
  {
    assert CallerOk(s.replies, s.callers[c]);
    CallersCostUpdate(s.callers, c, s'.callers[c]);
  }

  lemma StatCost(s: Sys, w: nat, o: Outcome, s': Sys)
    requires AfterStat(s, w, o) == Some(s')
    ensures Cost(s') < Cost(s)
  {
    WorkersCostUpdate(s.workers, w, s'.workers[w]);
  }

  /** Every step but a new call brings the end nearer. */
  lemma CostDecreases(s: Sys, a: Action, s': Sys)
    requires Inv(s) && After(s, a) == Some(s') && !a.Ask?
    ensures Cost(s') < Cost(s)
  {
    match a
    case Kick(c) => KickCost(s, c, s');
    case Take(w, chosen) => TakeCost(s, w, chosen, s');
    case Stat(w, o) => StatCost(s, w, o, s');
    case Reply(w, r) => ReplyCost(s, w, r, s');
    case Await(c) => AwaitCost(s, c, s');
  }

  lemma {:induction false} Choose(m: set<Ref>, n: nat) returns (chosen: set<Ref>)
    requires n <= |m|
    ensures chosen <= m && |chosen| == n
  {
    if n == 0 {
      chosen := {};
    } else {
      var r :| r in m;
      chosen := Choose(m - {r}, n - 1);
      chosen := chosen + {r};
    }
  }

  lemma CanAlwaysTake(s: Sys, w: nat) returns (a: Action)
    requires w < |s.workers| && s.workers[w].phase == Ready
    ensures !a.Ask? && After(s, a).Some?
  {
    var chosen := s.pend.Keys;
    if |chosen| > MAX_STAT_PER_REQ { chosen := Choose(chosen, MAX_STAT_PER_REQ); }
    a := Take(w, chosen);
  }

  /** While a request is unanswered, somebody other than a new caller can move. */
  lemma UnansweredMoves(s: Sys, id: nat) returns (a: Action)
    requires Inv(s) && id < |s.refs| && s.replies[id] == []
    ensures !a.Ask? && After(s, a).Some?
  {
    assert Once(s.refs, s.pend, s.workers, s.replies, id);
    if s.pend != map[] {
      a := AwakeMoves(s);
    } else {
      var w := Holder(s.workers, s.refs[id], id);
      OccIn(s.workers[w].batch, s.refs[id], id);
      a := BatchMoves(s, w, s.refs[id]);
    }
  }

  lemma AwakeMoves(s: Sys) returns (a: Action)
    requires Awake(s) && s.pend != map[]
    ensures !a.Ask? && After(s, a).Some?
  {
    if HasReady(s.workers) {
      var w :| 0 <= w < |s.workers| && s.workers[w].phase == Ready;
      a := CanAlwaysTake(s, w);
    } else {
      var c :| 0 <= c < |s.callers| && s.callers[c].Kicking?;
      a := Kick(c);
    }
  }

  lemma BatchMoves(s: Sys, w: nat, r: Ref) returns (a: Action)
    requires Inv(s) && w < |s.workers| && r in s.workers[w].batch
    ensures !a.Ask? && After(s, a).Some?
  {
    assert WorkerOk(s.workers[w]);
    if s.workers[w].phase == Statting {
      a := Stat(w, Outcome([], false));
    } else {
      LedgerReply(s.refs, s.pend, s.workers, s.replies, w, r, Outcome([], false));
      a := Reply(w, r);
    }
  }

  lemma {:induction false} Holder(ws: seq<Worker>, r: Ref, id: nat) returns (w: nat)
    requires InBatches(ws, r, id) > 0
    ensures w < |ws| && Occ(ws[w].batch, r, id) > 0
  {
    if Occ(ws[|ws| - 1].batch, r, id) > 0 {
      w := |ws| - 1;
    } else {
      w := Holder(ws[..|ws| - 1], r, id);
    }
  }

  /** While a call has not returned, somebody other than a new caller can move. */
  lemma CallerMoves(s: Sys, c: nat) returns (a: Action)
    requires Inv(s) && c < |s.callers| && !s.callers[c].Returned?
    ensures !a.Ask? && After(s, a).Some?
  {
    assert CallerOk(s.replies, s.callers[c]);
    if s.callers[c].Kicking? {
      a := Kick(c);
    } else {
      var Waiting(first, n, k) := s.callers[c];
      if k < n && s.replies[first + k] == [] {
        a := UnansweredMoves(s, first + k);
      } else {
        a := Await(c);
      }
    }
  }

  /** A run in which nothing but new calls could happen next has answered every request exactly
      once and returned from every call, without an error if and only if no request of the call
      got one. */
  lemma QuietMeansAnswered(states: seq<Sys>, actions: seq<Action>)
    requires IsRun(states, actions)
    requires forall a :: After(states[|actions|], a).Some? ==> a.Ask?
    ensures var s := states[|actions|];
            && s.pend == map[] && |s.replies| == |s.refs|
            && (forall id :: 0 <= id < |s.refs| ==> |s.replies[id]| == 1)
            && (forall c :: 0 <= c < |s.callers| ==> s.callers[c].Returned? && (!s.callers[c].failed <==> Clean(s.replies, s.callers[c].first, s.callers[c].n)))
  {
    var s := states[|actions|];
    RunInv(states, actions, |actions|);
    forall id: nat | id < |s.refs| ensures |s.replies[id]| == 1 {
      assert Once(s.refs, s.pend, s.workers, s.replies, id);
      if s.replies[id] == [] { var a := UnansweredMoves(s, id); }
    }
    forall c | 0 <= c < |s.callers| ensures s.callers[c].Returned? {
      if !s.callers[c].Returned? { var a := CallerMoves(s, c); }
    }
    forall c | 0 <= c < |s.callers| ensures !s.callers[c].failed <==> Clean(s.replies, s.callers[c].first, s.callers[c].n) {
      assert CallerOk(s.replies, s.callers[c]);
    }
    if s.pend != map[] { var a := AwakeMoves(s); }
  }

  /** And that state comes: once nobody asks any more, only Cost steps are left. */
  lemma {:induction false} StepsBounded(states: seq<Sys>, actions: seq<Action>, k: nat, n: nat)
    requires IsRun(states, actions) && k <= n <= |actions|
    requires forall i :: k <= i < n ==> !actions[i].Ask?
    ensures n - k + Cost(states[n]) <= Cost(states[k])
  {
    if k < n {
      StepsBounded(states, actions, k, n - 1);
      RunInv(states, actions, n - 1);
      CostDecreases(states[n - 1], actions[n - 1], states[n]);
    }
  }
}
