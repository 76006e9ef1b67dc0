/** How the client batches stat requests: StatBlobs and doSomeStats of pkg/client/upload.go.

    A request is known by the order in which it was made. Each critical section under pendStatMu
    is one step, as are starting a goroutine, finishing a doStat call, sending one error reply
    and receiving one. */
module StatBatching {
  import opened Collections
  import opened Options
  import opened BlobRef
  import opened Enumeration

  const MAX_STAT_PER_REQ := 1000

  /** pendStat: the requests waiting for each ref. */
  type Pending = map<Ref, seq<nat>>

  /** A doSomeStats goroutine. Done covers the worker that lost the race. */
  datatype Phase = Ready | Statting | Replying(outcome: Outcome) | Done

  /** What a doStat call sent and whether it returned an error. */
  datatype Outcome = Outcome(found: seq<SizedRef>, failed: bool)

  datatype Worker = Worker(phase: Phase, batch: Pending)

  /** A StatBlobs call with n requests to wait for. */
  datatype Caller =
    | Kicking(first: nat, n: nat)
    | Waiting(first: nat, n: nat, k: nat)
    | Returned(first: nat, n: nat, failed: bool)

  /** refs has the ref of every request, replies the doStat calls whose error was sent on its error
      channel and delivered what was sent on its dest. */
  datatype Sys = Sys(
    refs: seq<Ref>, pend: Pending, workers: seq<Worker>, callers: seq<Caller>,
    replies: seq<seq<Outcome>>, delivered: seq<seq<SizedRef>>)

  datatype Action =
    | Ask(rs: seq<Ref>)
    | Kick(c: nat)
    | Take(w: nat, chosen: set<Ref>)
    | Stat(w: nat, outcome: Outcome)
    | Reply(w: nat, ref: Ref)
    | Await(c: nat)

  // ---- The critical sections ----------------------------------------------------------------------

  function At(m: Pending, r: Ref): seq<nat> { if r in m then m[r] else [] }

  /** Requests first, first + 1, ... queue up for the refs. */
  function Enqueue(m: Pending, rs: seq<Ref>, first: nat): Pending {
    if rs == [] then m
    else
      var k := |rs| - 1;
      var before := Enqueue(m, rs[..k], first);
      before[rs[k] := At(before, rs[k]) + [first + k]]
  }

  /** The requests for r among first, first + 1, ... */
  ghost function AskedFor(rs: seq<Ref>, first: nat, r: Ref): set<nat> {
    set k | 0 <= k < |rs| && rs[k] == r :: first + k
  }

  /** The requests for a ref queue up in order, behind those that are there. */
  lemma {:induction false} EnqueuedInOrder(m: Pending, rs: seq<Ref>, first: nat, r: Ref) returns (ids: seq<nat>)
    ensures At(Enqueue(m, rs, first), r) == At(m, r) + ids && InOrder(ids, AskedFor(rs, first, r))
  {
    ids := [];
    if rs != [] {
      var front := EnqueuedInOrder(m, rs[..|rs| - 1], first, r);
      ids := AskedLast(rs, first, r, front);
      EnqueuedLast(m, rs, first, r);
      Associative(At(m, r), front, [first + |rs| - 1]);
    }
  }

  lemma AskedLast(rs: seq<Ref>, first: nat, r: Ref, front: seq<nat>) returns (ids: seq<nat>)
    requires rs != [] && InOrder(front, AskedFor(rs[..|rs| - 1], first, r))
    ensures InOrder(ids, AskedFor(rs, first, r)) && ids == if rs[|rs| - 1] == r then front + [first + |rs| - 1] else front
  {
    AskedMore(rs, first, r);
    InOrderMore(front, AskedFor(rs[..|rs| - 1], first, r), first + |rs| - 1);
    ids := if rs[|rs| - 1] == r then front + [first + |rs| - 1] else front;
  }

  lemma EnqueuedLast(m: Pending, rs: seq<Ref>, first: nat, r: Ref)
    requires rs != []
    ensures var k := |rs| - 1;
            At(Enqueue(m, rs, first), r) ==
              if rs[k] == r then At(Enqueue(m, rs[..k], first), r) + [first + k] else At(Enqueue(m, rs[..k], first), r)
  {
  }

  lemma AskedMore(rs: seq<Ref>, first: nat, r: Ref)
    requires rs != []
    ensures var (k, before) := (|rs| - 1, AskedFor(rs[..|rs| - 1], first, r));
            AskedFor(rs, first, r) == (if rs[k] == r then before + {first + k} else before) && forall id :: id in before ==> id < first + k
  {
  }

  /** doSomeStats takes everything, or as much as one batch holds. */
  predicate CanTake(m: Pending, chosen: set<Ref>) {
    chosen <= m.Keys && |chosen| <= MAX_STAT_PER_REQ && (|chosen| < MAX_STAT_PER_REQ ==> chosen == m.Keys)
  }

  function Only(m: Pending, rs: set<Ref>): Pending { map r | r in m && r in rs :: m[r] }

  lemma TakeOne(m: Pending, batch: Pending, br: Ref)
    requires batch == Only(m, batch.Keys) && br in m && br !in batch
    ensures var b := batch[br := m[br]];
            |b.Keys| == |batch.Keys| + 1 && b == Only(m, b.Keys) && m - batch.Keys - {br} == m - b.Keys
  {
    var b := batch[br := m[br]];
    assert b.Keys == batch.Keys + {br};
  }

  class PendStat {
    var pend: Pending

    method Add(rs: seq<Ref>, first: nat)
      modifies this
      ensures pend == Enqueue(old(pend), rs, first)
    {
      for k := 0 to |rs|
        invariant pend == Enqueue(old(pend), rs[..k], first)
      {
        assert rs[..k + 1][..k] == rs[..k];
        pend := pend[rs[k] := At(pend, rs[k]) + [first + k]];
      }
      assert rs[..|rs|] == rs;
    }

    /** The locked part of doSomeStats; `again` says that it starts another worker. */
    method TakeBatch() returns (batch: Pending, again: bool)
      modifies this
      ensures |batch.Keys| <= 1000 && (again <==> |batch.Keys| == 1000) && (!again ==> batch.Keys == old(pend).Keys)
      ensures batch == Only(old(pend), batch.Keys) && pend == old(pend) - batch.Keys
    {
      batch, again := map[], false;
      var todo := pend.Keys;
      while todo != {}
        invariant todo == pend.Keys && pend == old(pend) - batch.Keys
        invariant batch.Keys <= old(pend).Keys && batch == Only(old(pend), batch.Keys)
        invariant |batch.Keys| < MAX_STAT_PER_REQ && !again
        decreases |todo|
      {
        var br :| br in todo;
        todo := todo - {br};
        TakeOne(old(pend), batch, br);
        batch := batch[br := pend[br]];
        pend := pend - {br};
        if |batch.Keys| == MAX_STAT_PER_REQ {
          again := true;
          break;
        }
      }
    }
  }

  // ---- Steps ----------------------------------------------------------------------------------------

  function Blank<T>(n: nat): seq<seq<T>> { seq(n, _ => []) }

  predicate IsFor(sr: SizedRef, r: Ref) { sr.ref == r }

  /** What doStat found for r. */
  function FoundFor(found: seq<SizedRef>, r: Ref): seq<SizedRef> {
    if found == [] then []
    else
      var k := |found| - 1;
      if IsFor(found[k], r) then FoundFor(found[..k], r) + [found[k]] else FoundFor(found[..k], r)
  }

  /** Every sized ref found is passed to all requests of the batch for that ref. */
  function Deliver(s: Sys, batch: Pending, found: seq<SizedRef>): seq<seq<SizedRef>>
    requires |s.delivered| == |s.refs|
  {
    seq(|s.refs|, i requires 0 <= i < |s.refs| =>
      s.delivered[i] + if i in At(batch, s.refs[i]) then FoundFor(found, s.refs[i]) else [])
  }

  function AfterAsk(s: Sys, rs: seq<Ref>): Option<Sys> {
    if rs != [] && forall i :: 0 <= i < |rs| ==> Valid(rs[i]) then
      Some(Sys(s.refs + rs, Enqueue(s.pend, rs, |s.refs|), s.workers, s.callers + [Kicking(|s.refs|, |rs|)],
               s.replies + Blank(|rs|), s.delivered + Blank(|rs|)))
    else None
  }

  function AfterKick(s: Sys, c: nat): Option<Sys> {
    if c < |s.callers| && s.callers[c].Kicking? then
      Some(s.(workers := s.workers + [Worker(Ready, map[])],
              callers := s.callers[c := Waiting(s.callers[c].first, s.callers[c].n, 0)]))
    else None
  }

  function AfterTake(s: Sys, w: nat, chosen: set<Ref>): Option<Sys> {
    if w < |s.workers| && s.workers[w].phase == Ready && CanTake(s.pend, chosen) then
      if s.pend == map[] then Some(s.(workers := s.workers[w := Worker(Done, map[])]))
      else
        var ws := s.workers[w := Worker(Statting, Only(s.pend, chosen))];
        Some(s.(pend := s.pend - chosen,
                workers := if |chosen| == MAX_STAT_PER_REQ then ws + [Worker(Ready, map[])] else ws))
    else None
  }

  function AfterStat(s: Sys, w: nat, o: Outcome): Option<Sys> {
    if w < |s.workers| && s.workers[w].phase == Statting && |s.delivered| == |s.refs| then
      Some(s.(workers := s.workers[w := Worker(Replying(o), s.workers[w].batch)],
              delivered := Deliver(s, s.workers[w].batch, o.found)))
    else None
  }

  /** One reply less to send for r. */
  function Served(batch: Pending, r: Ref): Pending
    requires r in batch && batch[r] != []
  {
    if |batch[r]| == 1 then batch - {r} else batch[r := batch[r][1..]]
  }

  function AfterReply(s: Sys, w: nat, r: Ref): Option<Sys> {
    if w < |s.workers| && s.workers[w].phase.Replying? && r in s.workers[w].batch && s.workers[w].batch[r] != []
       && s.workers[w].batch[r][0] < |s.replies| then
      var id := s.workers[w].batch[r][0];
      Some(s.(workers := s.workers[w := Worker(s.workers[w].phase, Served(s.workers[w].batch, r))],
              replies := s.replies[id := s.replies[id] + [s.workers[w].phase.outcome]]))
    else None
  }

  /** The caller goes through its error channels in order and returns at the first error. */
  function AfterAwait(s: Sys, c: nat): Option<Sys> {
    if c < |s.callers| && s.callers[c].Waiting? then
      var Waiting(first, n, k) := s.callers[c];
      if k >= n then Some(s.(callers := s.callers[c := Returned(first, n, false)]))
      else if first + k < |s.replies| && s.replies[first + k] != [] then
        Some(s.(callers := s.callers[c := if s.replies[first + k][0].failed then Returned(first, n, true) else Waiting(first, n, k + 1)]))
      else None
    else None
  }

  function After(s: Sys, a: Action): Option<Sys> {
    match a
    case Ask(rs) => AfterAsk(s, rs)
    case Kick(c) => AfterKick(s, c)
    case Take(w, chosen) => AfterTake(s, w, chosen)
    case Stat(w, o) => AfterStat(s, w, o)
    case Reply(w, r) => AfterReply(s, w, r)
    case Await(c) => AfterAwait(s, c)
  }

  const INITIAL := Sys([], map[], [], [], [], [])

  ghost predicate IsRun(states: seq<Sys>, actions: seq<Action>) {
    && |states| == |actions| + 1 && states[0] == INITIAL
    && forall i :: 0 <= i < |actions| ==> After(states[i], actions[i]) == Some(states[i + 1])
  }

  // ---- Where each request is ------------------------------------------------------------------------

  /** How often request id occurs in the queue for its ref. */
  function Occ(m: Pending, r: Ref, id: nat): nat { multiset(At(m, r))[id] }

  function InBatches(ws: seq<Worker>, r: Ref, id: nat): nat {
    if ws == [] then 0 else InBatches(ws[..|ws| - 1], r, id) + Occ(ws[|ws| - 1].batch, r, id)
  }

  /** Requests are queued under their own ref, and no queue is empty. */
  ghost predicate Keyed(m: Pending, refs: seq<Ref>) {
    && (forall r :: r in m ==> m[r] != [])
    && (forall r, i :: r in m && 0 <= i < |m[r]| ==> m[r][i] < |refs| && refs[m[r][i]] == r)
  }

  ghost predicate AllKeyed(ws: seq<Worker>, refs: seq<Ref>) {
    forall w :: 0 <= w < |ws| ==> Keyed(ws[w].batch, refs)
  }

  /** Request id is pending, in a batch or answered, and only one of these, once. */
  ghost predicate Once(refs: seq<Ref>, pend: Pending, ws: seq<Worker>, replies: seq<seq<Outcome>>, id: nat)
    requires id < |refs| == |replies|
  {
    Occ(pend, refs[id], id) + InBatches(ws, refs[id], id) + |replies[id]| == 1
  }

  ghost predicate Ledger(refs: seq<Ref>, pend: Pending, ws: seq<Worker>, replies: seq<seq<Outcome>>) {
    && |replies| == |refs| && Keyed(pend, refs) && AllKeyed(ws, refs)
    && forall id: nat :: id < |refs| ==> Once(refs, pend, ws, replies, id)
  }

  lemma {:induction false} BatchesUpdate(ws: seq<Worker>, w: nat, x: Worker, r: Ref, id: nat)
    requires w < |ws|
    ensures InBatches(ws[w := x], r, id) == InBatches(ws, r, id) - Occ(ws[w].batch, r, id) + Occ(x.batch, r, id)
  {
    var k := |ws| - 1;
    if w == k {
      assert ws[w := x][..k] == ws[..k];
    } else {
      assert ws[w := x][..k] == ws[..k][w := x];
      BatchesUpdate(ws[..k], w, x, r, id);
    }
  }

  lemma BatchesSnoc(ws: seq<Worker>, x: Worker, r: Ref, id: nat)
    ensures InBatches(ws + [x], r, id) == InBatches(ws, r, id) + Occ(x.batch, r, id)
  {
    assert (ws + [x])[..|ws|] == ws;
  }

  lemma OccNone(m: Pending, refs: seq<Ref>, r: Ref, id: nat)
    requires Keyed(m, refs) && id >= |refs|
    ensures Occ(m, r, id) == 0
  {
    assert id !in At(m, r);
  }

  lemma {:induction false} BatchesNone(ws: seq<Worker>, refs: seq<Ref>, r: Ref, id: nat)
    requires AllKeyed(ws, refs) && id >= |refs|
    ensures InBatches(ws, r, id) == 0
  {
    if ws != [] {
      BatchesNone(ws[..|ws| - 1], refs, r, id);
      OccNone(ws[|ws| - 1].batch, refs, r, id);
    }
  }

  // ---- The invariant --------------------------------------------------------------------------------

  ghost predicate HasReady(ws: seq<Worker>) { exists w :: 0 <= w < |ws| && ws[w].phase == Ready }

  ghost predicate HasKicking(cs: seq<Caller>) { exists c :: 0 <= c < |cs| && cs[c].Kicking? }

  /** No request is stranded: a worker has yet to take a batch or a caller is about to start one. */
  ghost predicate Awake(s: Sys) { s.pend != map[] ==> HasReady(s.workers) || HasKicking(s.callers) }

  ghost predicate WorkerOk(w: Worker) {
    |w.batch.Keys| <= 1000 && (w.phase == Ready || w.phase == Done ==> w.batch == map[])
  }

  /** A pending request has got nothing. */
  ghost predicate FromPend(refs: seq<Ref>, pend: Pending, delivered: seq<seq<SizedRef>>)
    requires |delivered| == |refs|
  {
    forall id :: 0 <= id < |refs| && id in At(pend, refs[id]) ==> delivered[id] == []
  }

  /** A request in a batch has got nothing yet, or what the batch's doStat call found for it. */
  ghost predicate FromBatch(refs: seq<Ref>, w: Worker, delivered: seq<seq<SizedRef>>)
    requires |delivered| == |refs|
  {
    forall id :: 0 <= id < |refs| && id in At(w.batch, refs[id]) ==>
      delivered[id] == if w.phase.Replying? then FoundFor(w.phase.outcome.found, refs[id]) else []
  }

  /** An answered request has got what the doStat call that answered it found for it. */
  ghost predicate FromReply(refs: seq<Ref>, replies: seq<seq<Outcome>>, delivered: seq<seq<SizedRef>>)
    requires |delivered| == |refs| == |replies|
  {
    forall id :: 0 <= id < |refs| && replies[id] != [] ==> delivered[id] == FoundFor(replies[id][0].found, refs[id])
  }

  /** The first k requests were answered without error. */
  ghost predicate Clean(replies: seq<seq<Outcome>>, first: nat, k: nat) {
    first + k <= |replies| && forall i :: first <= i < first + k ==> replies[i] != [] && !replies[i][0].failed
  }

  ghost predicate CallerOk(replies: seq<seq<Outcome>>, c: Caller) {
    && c.first + c.n <= |replies|
    && match c
       case Kicking(_, _) => true
       case Waiting(first, n, k) => k <= n && Clean(replies, first, k)
       case Returned(first, n, failed) =>
         if failed then exists i :: first <= i < first + n && replies[i] != [] && replies[i][0].failed else Clean(replies, first, n)
  }

  ghost predicate CallersOk(replies: seq<seq<Outcome>>, cs: seq<Caller>) {
    forall c :: 0 <= c < |cs| ==> CallerOk(replies, cs[c])
  }

  ghost predicate Inv(s: Sys) {
    && Ledger(s.refs, s.pend, s.workers, s.replies) && |s.delivered| == |s.refs|
    && (forall w :: 0 <= w < |s.workers| ==> WorkerOk(s.workers[w]) && FromBatch(s.refs, s.workers[w], s.delivered))
    && FromPend(s.refs, s.pend, s.delivered) && FromReply(s.refs, s.replies, s.delivered)
    && Awake(s) && CallersOk(s.replies, s.callers)
  }

  // ---- The ledger is kept ---------------------------------------------------------------------------

  lemma KeyedWiden(m: Pending, refs: seq<Ref>, r: Ref)
    requires Keyed(m, refs)
    ensures Keyed(m, refs + [r])
  {
  }

  lemma OccQueued(m: Pending, ref: Ref, n: nat, r: Ref, id: nat)
    ensures Occ(m[ref := At(m, ref) + [n]], r, id) == Occ(m, r, id) + if r == ref && id == n then 1 else 0
  {
  }

  lemma KeyedQueued(m: Pending, refs: seq<Ref>, r: Ref)
    requires Keyed(m, refs)
    ensures Keyed(m[r := At(m, r) + [|refs|]], refs + [r])
  {
    KeyedWiden(m, refs, r);
    assert forall i :: 0 <= i < |At(m, r)| ==> At(m, r)[i] < |refs| && refs[At(m, r)[i]] == r;
  }

  lemma OnceAdd(refs: seq<Ref>, pend: Pending, ws: seq<Worker>, replies: seq<seq<Outcome>>, r: Ref, id: nat)
    requires Ledger(refs, pend, ws, replies) && id <= |refs|
    ensures Once(refs + [r], pend[r := At(pend, r) + [|refs|]], ws, replies + [[]], id)
  {
    OccQueued(pend, r, |refs|, (refs + [r])[id], id);
    if id < |refs| {
      assert Once(refs, pend, ws, replies, id);
    } else {
      OccNone(pend, refs, r, id);
      BatchesNone(ws, refs, r, id);
    }
  }

  lemma LedgerAdd(refs: seq<Ref>, pend: Pending, ws: seq<Worker>, replies: seq<seq<Outcome>>, r: Ref)
    requires Ledger(refs, pend, ws, replies)
    ensures Ledger(refs + [r], pend[r := At(pend, r) + [|refs|]], ws, replies + [[]])
  {
    var (refs', pend', replies') := (refs + [r], pend[r := At(pend, r) + [|refs|]], replies + [[]]);
    KeyedQueued(pend, refs, r);
    forall w | 0 <= w < |ws| ensures Keyed(ws[w].batch, refs') { KeyedWiden(ws[w].batch, refs, r); }
    forall id: nat | id < |refs'| ensures Once(refs', pend', ws, replies', id) { OnceAdd(refs, pend, ws, replies, r, id); }
  }

  lemma {:induction false} LedgerEnqueue(refs: seq<Ref>, pend: Pending, ws: seq<Worker>, replies: seq<seq<Outcome>>, rs: seq<Ref>)
    requires Ledger(refs, pend, ws, replies)
    ensures Ledger(refs + rs, Enqueue(pend, rs, |refs|), ws, replies + Blank(|rs|))
  {
    if rs == [] {
      assert refs + rs == refs && replies + Blank(0) == replies;
    } else {
      var k := |rs| - 1;
      LedgerEnqueue(refs, pend, ws, replies, rs[..k]);
      LedgerAdd(refs + rs[..k], Enqueue(pend, rs[..k], |refs|), ws, replies + Blank(k), rs[k]);
      OneMore(refs, rs);
      BlankMore(replies, k);
    }
  }

  lemma OneMore(refs: seq<Ref>, rs: seq<Ref>)
    requires rs != []
    ensures refs + rs[..|rs| - 1] + [rs[|rs| - 1]] == refs + rs
  {
  }

  lemma BlankMore(replies: seq<seq<Outcome>>, k: nat)
    ensures replies + Blank(k) + [[]] == replies + Blank(k + 1)
  {
  }

  lemma OccSplit(m: Pending, chosen: set<Ref>, r: Ref, id: nat)
    ensures Occ(m - chosen, r, id) + Occ(Only(m, chosen), r, id) == Occ(m, r, id)
  {
  }

  lemma LedgerTake(refs: seq<Ref>, pend: Pending, ws: seq<Worker>, replies: seq<seq<Outcome>>, w: nat, phase: Phase, chosen: set<Ref>)
    requires Ledger(refs, pend, ws, replies) && w < |ws| && ws[w].batch == map[]
    ensures Ledger(refs, pend - chosen, ws[w := Worker(phase, Only(pend, chosen))], replies)
  {
    var x := Worker(phase, Only(pend, chosen));
    var (pend', ws') := (pend - chosen, ws[w := x]);
    forall id: nat | id < |refs| ensures Once(refs, pend', ws', replies, id) {
      assert Once(refs, pend, ws, replies, id);
      OccSplit(pend, chosen, refs[id], id);
      BatchesUpdate(ws, w, x, refs[id], id);
    }
  }

  /** Ledgers do not see what workers without a batch, or their phases, do. */
  lemma LedgerSpawn(refs: seq<Ref>, pend: Pending, ws: seq<Worker>, replies: seq<seq<Outcome>>)
    requires Ledger(refs, pend, ws, replies)
    ensures Ledger(refs, pend, ws + [Worker(Ready, map[])], replies)
  {
    var x := Worker(Ready, map[]);
    var ws' := ws + [x];
    forall id: nat | id < |refs| ensures Once(refs, pend, ws', replies, id) {
      assert Once(refs, pend, ws, replies, id);
      BatchesSnoc(ws, x, refs[id], id);
    }
  }

  lemma LedgerPhase(refs: seq<Ref>, pend: Pending, ws: seq<Worker>, replies: seq<seq<Outcome>>, w: nat, phase: Phase)
    requires Ledger(refs, pend, ws, replies) && w < |ws|
    ensures Ledger(refs, pend, ws[w := Worker(phase, ws[w].batch)], replies)
  {
    var x := Worker(phase, ws[w].batch);
    var ws' := ws[w := x];
    forall id: nat | id < |refs| ensures Once(refs, pend, ws', replies, id) {
      assert Once(refs, pend, ws, replies, id);
      BatchesUpdate(ws, w, x, refs[id], id);
    }
  }

  lemma OccServed(batch: Pending, ref: Ref, r: Ref, id: nat)
    requires ref in batch && batch[ref] != []
    ensures Occ(Served(batch, ref), r, id) == Occ(batch, r, id) - if r == ref && id == batch[ref][0] then 1 else 0
  {
    if r == ref { HeadServed(batch[ref], id); }
  }

  lemma HeadServed(l: seq<nat>, id: nat)
    requires l != []
    ensures multiset(l[1..])[id] == multiset(l)[id] - if id == l[0] then 1 else 0
  {
    assert l == [l[0]] + l[1..];
  }

  lemma KeyedServed(batch: Pending, refs: seq<Ref>, ref: Ref)
    requires Keyed(batch, refs) && ref in batch
    ensures Keyed(Served(batch, ref), refs)
  {
    var (b, l) := (Served(batch, ref), batch[ref]);
    forall r, i | r in b && 0 <= i < |b[r]| ensures b[r][i] < |refs| && refs[b[r][i]] == r {
      if r == ref { assert b[r][i] == l[i + 1]; }
    }
  }

  lemma LedgerReply(refs: seq<Ref>, pend: Pending, ws: seq<Worker>, replies: seq<seq<Outcome>>, w: nat, ref: Ref, o: Outcome)
    requires Ledger(refs, pend, ws, replies) && w < |ws| && ref in ws[w].batch
    ensures ws[w].batch[ref] != [] && ws[w].batch[ref][0] < |refs| && refs[ws[w].batch[ref][0]] == ref
    ensures var id := ws[w].batch[ref][0];
            replies[id] == [] && Ledger(refs, pend, ws[w := Worker(ws[w].phase, Served(ws[w].batch, ref))], replies[id := replies[id] + [o]])
  {
    var n := ws[w].batch[ref][0];
    var x := Worker(ws[w].phase, Served(ws[w].batch, ref));
    var replies' := replies[n := replies[n] + [o]];
    var ws' := ws[w := x];
    KeyedServed(ws[w].batch, refs, ref);
    forall id: nat | id < |refs| ensures Once(refs, pend, ws', replies', id) {
      assert Once(refs, pend, ws, replies, id);
      BatchesUpdate(ws, w, x, refs[id], id);
      OccServed(ws[w].batch, ref, refs[id], id);
    }
    assert Once(refs, pend, ws', replies', n);
  }
}
