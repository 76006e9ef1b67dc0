/** The worker pool of cmd/camput/chanworker.go, as a step relation over the pump,
    the worker goroutines, the channels between them and the client that sends and closes.

    The pool is proved to refine a bag of pending nodes (`Pool`), and every interleaving
    is proved to call fn once per node and to make the final fn(nil, false) call once, last.
 */
module NodeWorker {
  import opened Collections
  import opened Options

  /** Capacity of the input channel and of the channel from the pump to the workers. */
  const BUFFERED := 16

  /** A pool of nWorkers > 0 workers fed by a pump, or, when nWorkers < 0, a dispatcher that
      starts one goroutine per node. `frames` maps a goroutine that is inside fn(n, true) to n.
      For a dispatcher, `inc` says that its range loop is still on, `buf` holds the goroutines
      that have not called fn yet, and the four fields of pump and workers stay empty. */
  datatype Worker = Worker(
    nWorkers: int,
    retc: seq<nat>, closed: bool,       // the channel handed to the client
    inc: bool, buf: seq<nat>,           // pump: inc != nil, and its list
    workc: seq<nat>, workClosed: bool,
    stopping: set<nat>,                 // workers blocked on donec <- true
    exited: set<nat>,                   // workers already received from donec
    frames: map<nat, nat>,
    sentinel: bool)                     // fn(nil, false) has been called
  {
    predicate Pooled() { nWorkers > 0 }
  }

  /** What pump, workers, collector or dispatcher do out of the client's sight. */
  datatype Move =
    | Forward          // pump: outc <- frontNode
    | Receive          // pump: n := <-inc, or dispatcher: start a goroutine for n
    | InputEnds        // the input channel is closed and drained
    | CloseWork        // pump: close(w.workc)
    | Stop(w: nat)     // worker: workc is closed and drained
    | Collect(w: nat)  // collector: <-w.donec

  datatype Event =
    | Internal(m: Move)
    | Send(n: nat)
    | Close
    | Call(g: nat, n: nat, i: nat)   // i: which of the dispatcher's goroutines; 0 for a worker
    | Return(g: nat, n: nat)
    | Sentinel

  /** NewNodeWorker panics on zero workers; a negative count means unbounded. */
  function New(nWorkers: int): Worker
    requires nWorkers != 0
  {
    Worker(nWorkers, [], false, true, [], [], false, {}, {}, map[], false)
  }

  predicate Idle(w: Worker, g: nat) {
    g < w.nWorkers && g !in w.frames && g !in w.stopping && g !in w.exited
  }

  function Moved(w: Worker, m: Move): Option<Worker> {
    match m
    case Forward =>
      if w.Pooled() && w.buf != [] && !w.workClosed && |w.workc| < BUFFERED then
        Some(w.(buf := w.buf[1..], workc := w.workc + [w.buf[0]]))
      else None
    case Receive =>
      if w.inc && w.retc != [] then Some(w.(retc := w.retc[1..], buf := w.buf + [w.retc[0]])) else None
    case InputEnds =>
      if w.inc && w.retc == [] && w.closed then Some(w.(inc := false)) else None
    case CloseWork =>
      if w.Pooled() && !w.inc && w.buf == [] && !w.workClosed then Some(w.(workClosed := true)) else None
    case Stop(g) =>
      if w.Pooled() && Idle(w, g) && w.workc == [] && w.workClosed then Some(w.(stopping := w.stopping + {g}))
      else None
    case Collect(g) =>
      if w.Pooled() && g in w.stopping then Some(w.(stopping := w.stopping - {g}, exited := w.exited + {g}))
      else None
  }

  function Called(w: Worker, g: nat, n: nat, i: nat): Option<Worker> {
    if w.Pooled() then
      if Idle(w, g) && w.workc != [] && w.workc[0] == n then
        Some(w.(workc := w.workc[1..], frames := w.frames[g := n]))
      else None
    else
      if g !in w.frames && i < |w.buf| && w.buf[i] == n then
        Some(w.(buf := w.buf[..i] + w.buf[i + 1..], frames := w.frames[g := n]))
      else None
  }

  predicate SentinelReady(w: Worker) {
    && !w.sentinel
    && if w.Pooled() then |w.exited| == w.nWorkers
       else !w.inc && w.buf == [] && w.frames == map[]
  }

  /** The state after an event, if the event can happen. */
  function After(w: Worker, e: Event): Option<Worker> {
    match e
    case Internal(m) => Moved(w, m)
    case Send(n) => if !w.closed && |w.retc| < BUFFERED then Some(w.(retc := w.retc + [n])) else None
    case Close => if !w.closed then Some(w.(closed := true)) else None
    case Call(g, n, i) => Called(w, g, n, i)
    case Return(g, n) =>
      if g in w.frames && w.frames[g] == n then Some(w.(frames := w.frames - {g})) else None
    case Sentinel => if SentinelReady(w) then Some(w.(sentinel := true)) else None
  }

  // ---- The specification: a bag of pending nodes -------------------------------------

  datatype Pool = Pool(pending: multiset<nat>, frames: map<nat, nat>, closed: bool, sentinel: bool)

  /** What a client may rely on: calls take pending nodes, and the sentinel call happens
      only when the pool is closed, nothing is pending and no call is under way. */
  ghost predicate PoolNext(p: Pool, e: Event, p': Pool) {
    match e
    case Internal(_) => p' == p
    case Send(n) => !p.closed && p' == p.(pending := p.pending + multiset{n})
    case Close => !p.closed && p' == p.(closed := true)
    case Call(g, n, _) =>
      n in p.pending && g !in p.frames && !p.sentinel &&
      p' == p.(pending := p.pending - multiset{n}, frames := p.frames[g := n])
    case Return(g, n) =>
      g in p.frames && p.frames[g] == n && !p.sentinel && p' == p.(frames := p.frames - {g})
    case Sentinel =>
      p.closed && p.pending == multiset{} && p.frames == map[] && !p.sentinel &&
      p' == p.(sentinel := true)
  }

  /** The nodes on their way to a worker, first sent first. */
  ghost function Queue(w: Worker): seq<nat> {
    w.workc + w.buf + w.retc
  }

  ghost function Abs(w: Worker): Pool {
    Pool(multiset(Queue(w)), w.frames, w.closed, w.sentinel)
  }

  ghost predicate Inv(w: Worker) {
    && w.nWorkers != 0
    && (!w.inc ==> w.closed && w.retc == [])
    && if w.Pooled() then
         && (w.workClosed ==> !w.inc && w.buf == [])
         && w.stopping !! w.exited
         && (w.stopping + w.exited != {} ==> w.workClosed && w.workc == [])
         && (forall g :: g in w.stopping || g in w.exited ==> g < w.nWorkers && g !in w.frames)
         && (forall g :: g in w.frames ==> g < w.nWorkers)
         && (w.sentinel ==> |w.exited| == w.nWorkers)
       else
         && w.workc == [] && !w.workClosed && w.stopping == {} && w.exited == {}
         && (w.sentinel ==> !w.inc && w.buf == [] && w.frames == map[])
  }

  ghost function Below(n: nat): (s: set<nat>)
    ensures |s| == n
    ensures forall g: nat :: g in s <==> g < n
  {
    if n == 0 then {} else Below(n - 1) + {n - 1}
  }

  lemma SubsetEqual(a: set<nat>, b: set<nat>)
    requires a <= b && |a| == |b|
    ensures a == b
  {
    if exists x :: x in b && x !in a {
      var x :| x in b && x !in a;
      SubsetSize(a, b - {x});
    }
  }

  /** When all workers have reported, none is inside fn and none is left to start. */
  lemma AllExited(w: Worker)
    requires Inv(w) && w.Pooled() && |w.exited| == w.nWorkers
    ensures w.exited == Below(w.nWorkers) && w.frames == map[] && w.stopping == {}
    ensures w.closed && w.retc == [] && w.buf == [] && w.workc == []
  {
    SubsetEqual(w.exited, Below(w.nWorkers));
    var all := w.exited;
    assert all != {};
    assert forall g :: g in w.frames ==> g in all;
    assert forall g :: g in w.stopping ==> g in all;
    assert w.frames.Keys == {};
  }

  /** One step of the pump, of a worker or of the client is one step of the bag, and
      internal steps are invisible. */
  lemma Refines(w: Worker, e: Event, w': Worker)
    requires Inv(w) && After(w, e) == Some(w')
    ensures Inv(w') && PoolNext(Abs(w), e, Abs(w'))
  {
    match e
    case Internal(m) => RefinesMove(w, m, w');
    case Call(g, n, i) => RefinesCall(w, g, n, i, w');
    case Return(_, _) =>
      if w.Pooled() && w.sentinel { AllExited(w); }
    case Sentinel =>
      if w.Pooled() { AllExited(w); }
    case Send(n) =>
      assert Queue(w') == Queue(w) + [n];
    case Close =>
  }

  lemma RefinesMove(w: Worker, m: Move, w': Worker)
    requires Inv(w) && Moved(w, m) == Some(w')
    ensures Inv(w') && Abs(w') == Abs(w)
  {
    MoveKeepsInv(w, m, w');
    assert Abs(w') == Abs(w) by { MoveKeepsQueue(w, m, w'); }
  }

  lemma MoveKeepsInv(w: Worker, m: Move, w': Worker)
    requires Inv(w) && Moved(w, m) == Some(w')
    ensures Inv(w')
  {
    if w.Pooled() && w.sentinel { AllExited(w); }
  }

  lemma MoveKeepsQueue(w: Worker, m: Move, w': Worker)
    requires Moved(w, m) == Some(w')
    ensures Queue(w') == Queue(w) && w'.frames == w.frames && w'.closed == w.closed && w'.sentinel == w.sentinel
  {
    match m
    case Forward => Shift(w.workc, w.buf, w.retc);
    case Receive => assert w.retc == [w.retc[0]] + w.retc[1..];
    case _ =>
  }

  lemma Shift(a: seq<nat>, b: seq<nat>, c: seq<nat>)
    requires b != []
    ensures (a + [b[0]]) + b[1..] + c == a + b + c
  {
    assert b == [b[0]] + b[1..];
  }

  lemma RefinesCall(w: Worker, g: nat, n: nat, i: nat, w': Worker)
    requires Inv(w) && Called(w, g, n, i) == Some(w')
    ensures Inv(w') && PoolNext(Abs(w), Call(g, n, i), Abs(w'))
  {
    if w.Pooled() && w.sentinel { AllExited(w); }
    if w.Pooled() {
      HeadTaken(w.workc, w.buf, w.retc);
    } else {
      AnyTaken(w.buf, i, w.retc);
    }
  }

  lemma HeadTaken(a: seq<nat>, b: seq<nat>, c: seq<nat>)
    requires a != []
    ensures a[0] in multiset(a + b + c)
    ensures multiset(a[1..] + b + c) == multiset(a + b + c) - multiset{a[0]}
  {
    assert a + b + c == [a[0]] + (a[1..] + b + c);
  }

  lemma AnyTaken(b: seq<nat>, i: nat, c: seq<nat>)
    requires i < |b|
    ensures b[i] in multiset([] + b + c)
    ensures multiset([] + (b[..i] + b[i + 1..]) + c) == multiset([] + b + c) - multiset{b[i]}
  {
    assert b == b[..i] + [b[i]] + b[i + 1..];
  }

  // ---- Whole runs ---------------------------------------------------------------------

  ghost predicate IsRun(nWorkers: int, states: seq<Worker>, events: seq<Event>) {
    && nWorkers != 0
    && |states| == |events| + 1
    && states[0] == New(nWorkers)
    && forall i :: 0 <= i < |events| ==> After(states[i], events[i]) == Some(states[i + 1])
  }

  ghost function Sent(events: seq<Event>): multiset<nat> {
    if events == [] then multiset{}
    else Sent(events[..|events| - 1]) + (match events[|events| - 1] case Send(n) => multiset{n} case _ => multiset{})
  }

  ghost function Runs(events: seq<Event>): multiset<nat> {
    if events == [] then multiset{}
    else Runs(events[..|events| - 1]) + (match events[|events| - 1] case Call(_, n, _) => multiset{n} case _ => multiset{})
  }

  ghost function Returned(events: seq<Event>): multiset<nat> {
    if events == [] then multiset{}
    else Returned(events[..|events| - 1]) + (match events[|events| - 1] case Return(_, n) => multiset{n} case _ => multiset{})
  }

  /** The goroutines that are inside fn with node n. */
  ghost function Busy(frames: map<nat, nat>, n: nat): set<nat> {
    set g | g in frames && frames[g] == n
  }

  /** Conservation: every node sent is pending, being processed or done, and nothing else is. */
  ghost predicate Tallied(events: seq<Event>, p: Pool) {
    && Sent(events) == Runs(events) + p.pending
    && (forall n :: Runs(events)[n] == Returned(events)[n] + |Busy(p.frames, n)|)
    && (p.sentinel <==> Sentinel in events)
    && (p.closed <==> Close in events)
  }

  lemma TallyStep(events: seq<Event>, p: Pool, e: Event, p': Pool)
    requires Tallied(events, p) && PoolNext(p, e, p')
    ensures Tallied(events + [e], p')
  {
    var events' := events + [e];
    assert Sent(events') == Runs(events') + p'.pending by { PendingStep(events, p, e, p'); }
    forall n ensures Runs(events')[n] == Returned(events')[n] + |Busy(p'.frames, n)| {
      BusyStep(events, p, e, p', n);
    }
  }

  lemma PendingStep(events: seq<Event>, p: Pool, e: Event, p': Pool)
    requires Sent(events) == Runs(events) + p.pending && PoolNext(p, e, p')
    ensures Sent(events + [e]) == Runs(events + [e]) + p'.pending
  {
    assert (events + [e])[..|events|] == events;
  }

  lemma NothingYet(w: Worker)
    requires Queue(w) == [] && w.frames == map[] && !w.sentinel && !w.closed
    ensures Tallied([], Abs(w))
  {
    assert forall n :: Busy(map[], n) == {};
  }

  /** The invariant and the tally hold after every prefix of every run. */
  lemma {:induction false} Conservation(nWorkers: int, states: seq<Worker>, events: seq<Event>, k: nat)
    requires IsRun(nWorkers, states, events) && k <= |events|
    ensures Inv(states[k]) && Tallied(events[..k], Abs(states[k]))
  {
    if k == 0 {
      NothingYet(states[0]);
    } else {
      Conservation(nWorkers, states, events, k - 1);
      PrefixStep(events, k);
      Advance(states[k - 1], events[k - 1], states[k], events[..k - 1], events[..k]);
    }
  }

  /** The nodes sent, and those that fn was called with, in the order in which that happened. */
  ghost function SentList(events: seq<Event>): seq<nat> {
    if events == [] then []
    else
      var before := SentList(events[..|events| - 1]);
      match events[|events| - 1] case Send(n) => before + [n] case _ => before
  }

  ghost function CallList(events: seq<Event>): seq<nat> {
    if events == [] then []
    else
      var before := CallList(events[..|events| - 1]);
      match events[|events| - 1] case Call(_, n, _) => before + [n] case _ => before
  }

  /** What was sent is what fn was called with, and then what waits. */
  ghost predicate InSequence(events: seq<Event>, w: Worker) {
    SentList(events) == CallList(events) + Queue(w)
  }

  lemma ListsSnoc(events: seq<Event>, e: Event)
    ensures SentList(events + [e]) == if e.Send? then SentList(events) + [e.n] else SentList(events)
    ensures CallList(events + [e]) == if e.Call? then CallList(events) + [e.n] else CallList(events)
  {
    assert (events + [e])[..|events|] == events;
  }

  /** What waits in a pool changes at its ends only. */
  lemma QueueAfter(w: Worker, e: Event, w': Worker)
    requires w.Pooled() && After(w, e) == Some(w')
    ensures w'.nWorkers == w.nWorkers
    ensures match e
            case Send(n) => Queue(w') == Queue(w) + [n]
            case Call(_, n, _) => Queue(w) == [n] + Queue(w')
            case _ => Queue(w') == Queue(w)
  {
    match e
    case Internal(m) => MoveKeepsQueue(w, m, w');
    case Call(_, n, _) => HeadCalled(w.workc, w.buf, w.retc);
    case _ =>
  }

  lemma HeadCalled(a: seq<nat>, b: seq<nat>, c: seq<nat>)
    requires a != []
    ensures a + b + c == [a[0]] + (a[1..] + b + c)
  {
  }

  lemma SequenceStep(events: seq<Event>, w: Worker, e: Event, w': Worker)
    requires w.Pooled() && After(w, e) == Some(w') && InSequence(events, w)
    ensures InSequence(events + [e], w') && w'.nWorkers == w.nWorkers
  {
    ListsSnoc(events, e);
    QueueAfter(w, e, w');
    if e.Send? { Associative(CallList(events), Queue(w), [e.n]); }
    if e.Call? { Associative(CallList(events), [e.n], Queue(w')); }
  }

  lemma {:induction false} RunInSequence(nWorkers: int, states: seq<Worker>, events: seq<Event>, k: nat)
    ensures IsRun(nWorkers, states, events) && k <= |events| && nWorkers > 0 ==>
              states[k].nWorkers == nWorkers && InSequence(events[..k], states[k])
  {
    if k > 0 && IsRun(nWorkers, states, events) && k <= |events| && nWorkers > 0 {
      RunInSequence(nWorkers, states, events, k - 1);
      PrefixStep(events, k);
      SequenceStep(events[..k - 1], states[k - 1], events[k - 1], states[k]);
    }
  }

  /** A pool of nWorkers workers calls fn with the nodes in the order in which they were sent, and never
      has more than nWorkers calls under way. */
  lemma CallsInOrder(nWorkers: int, states: seq<Worker>, events: seq<Event>, k: nat)
    requires IsRun(nWorkers, states, events) && k <= |events| && nWorkers > 0
    ensures CallList(events[..k]) <= SentList(events[..k]) && |states[k].frames.Keys| <= nWorkers
  {
    Conservation(nWorkers, states, events, k);
    RunInSequence(nWorkers, states, events, k);
    SubsetSize(states[k].frames.Keys, Below(nWorkers));
  }

  lemma PrefixStep(events: seq<Event>, k: nat)
    requires 0 < k <= |events|
    ensures events[..k] == events[..k - 1] + [events[k - 1]]
  {
  }

  lemma Advance(w: Worker, e: Event, w': Worker, events: seq<Event>, events': seq<Event>)
    requires Inv(w) && After(w, e) == Some(w') && Tallied(events, Abs(w)) && events' == events + [e]
    ensures Inv(w') && Tallied(events', Abs(w'))
  {
    Refines(w, e, w');
    TallyStep(events, Abs(w), e, Abs(w'));
  }

  lemma BusyStep(events: seq<Event>, p: Pool, e: Event, p': Pool, n: nat)
    requires PoolNext(p, e, p')
    requires Runs(events)[n] == Returned(events)[n] + |Busy(p.frames, n)|
    ensures Runs(events + [e])[n] == Returned(events + [e])[n] + |Busy(p'.frames, n)|
  {
    assert (events + [e])[..|events|] == events;
    match e
    case Call(g, m, _) => BusyAdd(p.frames, g, m, n);
    case Return(g, m) => BusyRemove(p.frames, g, n);
    case _ =>
  }

  lemma BusyAdd(f: map<nat, nat>, g: nat, m: nat, n: nat)
    requires g !in f
    ensures |Busy(f[g := m], n)| == |Busy(f, n)| + (if m == n then 1 else 0)
  {
    assert Busy(f[g := m], n) == if m == n then Busy(f, n) + {g} else Busy(f, n);
  }

  lemma BusyRemove(f: map<nat, nat>, g: nat, n: nat)
    requires g in f
    ensures |Busy(f - {g}, n)| == |Busy(f, n)| - (if f[g] == n then 1 else 0)
  {
    assert Busy(f - {g}, n) == if f[g] == n then Busy(f, n) - {g} else Busy(f, n);
  }

  /** The contract of NewNodeWorker, for every interleaving: no node has fn called on it more
      often than it was sent; and when fn(nil, false) is called, all sends are over, every
      node sent has had exactly its calls, all of them have returned, and neither a call nor a
      second sentinel follows. */
  lemma ExactlyOnce(nWorkers: int, states: seq<Worker>, events: seq<Event>)
    requires IsRun(nWorkers, states, events)
    ensures Returned(events) <= Runs(events) <= Sent(events)
    ensures forall k :: 0 <= k < |events| && events[k] == Sentinel ==>
              && Sent(events[..k]) == Runs(events[..k]) == Returned(events[..k])
              && Close in events[..k]
    ensures forall k, j :: 0 <= k < j < |events| && events[k] == Sentinel ==> events[j].Internal?
  {
    Conservation(nWorkers, states, events, |events|);
    assert events[..|events|] == events;
    forall k | 0 <= k < |events| && events[k] == Sentinel
      ensures Sent(events[..k]) == Runs(events[..k]) == Returned(events[..k]) && Close in events[..k]
    {
      AtSentinel(nWorkers, states, events, k);
    }
    forall k, j | 0 <= k < j < |events| && events[k] == Sentinel ensures events[j].Internal? {
      SentinelIsLast(nWorkers, states, events, k, j);
    }
  }

  lemma AtSentinel(nWorkers: int, states: seq<Worker>, events: seq<Event>, k: nat)
    requires IsRun(nWorkers, states, events) && k < |events| && events[k] == Sentinel
    ensures Sent(events[..k]) == Runs(events[..k]) == Returned(events[..k])
    ensures Close in events[..k]
  {
    Conservation(nWorkers, states, events, k);
    Refines(states[k], events[k], states[k + 1]);
    assert forall n :: Busy(map[], n) == {};
  }

  lemma SentinelIsLast(nWorkers: int, states: seq<Worker>, events: seq<Event>, k: nat, j: nat)
    requires IsRun(nWorkers, states, events) && k < j < |events| && events[k] == Sentinel
    ensures events[j].Internal?
  {
    Conservation(nWorkers, states, events, j);
    AtSentinel(nWorkers, states, events, k);
    assert events[..j][k] == Sentinel;
    assert events[..k] <= events[..j];
    Refines(states[j], events[j], states[j + 1]);
  }

  // ---- Progress: once closed, the pool runs dry ----------------------------------------

  function Owed(done: bool): nat { if done then 0 else 1 }

  /** An upper bound on the steps left once the client has closed its channel. */
  ghost function StepsLeft(w: Worker): nat
    requires Inv(w)
  {
    if w.Pooled() then
      ExitedBound(w);
      4 * |w.retc| + 3 * |w.buf| + 2 * |w.workc| + |w.frames|
      + Owed(!w.inc) + Owed(w.workClosed) + Owed(w.sentinel) + 2 * (w.nWorkers - |w.exited|) - |w.stopping|
    else
      3 * |w.retc| + 2 * |w.buf| + |w.frames| + Owed(!w.inc) + Owed(w.sentinel)
  }

  lemma ExitedBound(w: Worker)
    requires Inv(w) && w.Pooled()
    ensures |w.stopping| + |w.exited| <= w.nWorkers
  {
    SubsetSize(w.stopping + w.exited, Below(w.nWorkers));
  }

  lemma StepsDecrease(w: Worker, e: Event, w': Worker)
    requires Inv(w) && Inv(w') && After(w, e) == Some(w') && !e.Send? && !e.Close?
    ensures StepsLeft(w') < StepsLeft(w)
  {
    match e
    case Return(g, _) => OneFrameLess(w.frames, g);
    case Call(g, n, _) => OneFrameMore(w.frames, g, n);
    case Internal(m) => MovesDecrease(w, m, w');
    case Sentinel =>
  }

  lemma OneFrameMore(f: map<nat, nat>, g: nat, n: nat)
    requires g !in f
    ensures |f[g := n]| == |f| + 1
  {
    assert f[g := n].Keys == f.Keys + {g};
  }

  lemma OneFrameLess(f: map<nat, nat>, g: nat)
    requires g in f
    ensures |f - {g}| == |f| - 1
  {
    assert (f - {g}).Keys == f.Keys - {g};
  }

  lemma MovesDecrease(w: Worker, m: Move, w': Worker)
    requires Inv(w) && Inv(w') && Moved(w, m) == Some(w')
    ensures StepsLeft(w') < StepsLeft(w)
  {
    match m
    case Collect(g) => CollectDecreases(w, g, w');
    case Stop(g) => assert |w'.stopping| == |w.stopping| + 1;
    case Forward => assert |w'.buf| == |w.buf| - 1 && |w'.workc| == |w.workc| + 1;
    case Receive => assert |w'.retc| == |w.retc| - 1 && |w'.buf| == |w.buf| + 1;
    case InputEnds => return;
    case CloseWork => return;
  }

  lemma CollectDecreases(w: Worker, g: nat, w': Worker)
    requires Inv(w) && Inv(w') && Moved(w, Collect(g)) == Some(w')
    ensures StepsLeft(w') < StepsLeft(w)
  {
    assert |w'.stopping| == |w.stopping| - 1 && |w'.exited| == |w.exited| + 1;
  }

  /** A closed pool is never stuck: while no fn call is under way and the sentinel call is
      still to come, the pump, a worker, the collector or the dispatcher can move. */
  lemma NeverStuck(w: Worker) returns (e: Event)
    requires Inv(w) && w.closed && w.frames == map[] && !w.sentinel
    ensures After(w, e).Some? && (e.Internal? || e.Call? || e.Sentinel?)
  {
    if w.inc {
      e := Internal(if w.retc != [] then Receive else InputEnds);
    } else if !w.Pooled() {
      e := if w.buf != [] then Call(0, w.buf[0], 0) else Sentinel;
    } else if w.workc != [] {
      var g := AWorker(w);
      e := Call(g, w.workc[0], 0);
    } else if w.buf != [] {
      e := Internal(Forward);
    } else if !w.workClosed {
      e := Internal(CloseWork);
    } else if w.stopping != {} {
      var g :| g in w.stopping;
      e := Internal(Collect(g));
    } else if |w.exited| == w.nWorkers {
      e := Sentinel;
    } else {
      var g := AWorker(w);
      e := Internal(Stop(g));
    }
  }

  lemma AWorker(w: Worker) returns (g: nat)
    requires Inv(w) && w.Pooled() && w.frames == map[] && w.stopping == {}
    requires |w.exited| != w.nWorkers
    ensures Idle(w, g)
  {
    if Below(w.nWorkers) <= w.exited {
      SubsetSize(w.exited, Below(w.nWorkers));
      SubsetSize(Below(w.nWorkers), w.exited);
      assert false;
    }
    g :| g in Below(w.nWorkers) && g !in w.exited;
  }

  /** After the client closes, a run has a bounded number of steps left; a run that cannot be
      extended, with every fn call returned, has made the sentinel call. */
  lemma ClosedRunEnds(nWorkers: int, states: seq<Worker>, events: seq<Event>, c: nat)
    requires IsRun(nWorkers, states, events)
    requires c < |events| && events[c] == Close
    ensures Inv(states[c + 1]) && Inv(states[|events|])
    ensures |events| - (c + 1) + StepsLeft(states[|events|]) <= StepsLeft(states[c + 1])
    ensures var w := states[|events|];
            w.frames == map[] && (forall e :: After(w, e) == None) ==> Sentinel in events
  {
    StepsBound(nWorkers, states, events, c, |events|);
    assert events[..|events|] == events;
    var w := states[|events|];
    if w.frames == map[] && !w.sentinel { var e := NeverStuck(w); }
  }

  lemma {:induction false} StepsBound(nWorkers: int, states: seq<Worker>, events: seq<Event>, c: nat, k: nat)
    requires IsRun(nWorkers, states, events)
    requires c < k <= |events| && events[c] == Close
    ensures Inv(states[c + 1]) && Inv(states[k]) && Tallied(events[..k], Abs(states[k])) && states[k].closed
    ensures k - (c + 1) + StepsLeft(states[k]) <= StepsLeft(states[c + 1])
  {
    Conservation(nWorkers, states, events, k);
    assert events[..k][c] == Close;
    if c + 1 < k {
      StepsBound(nWorkers, states, events, c, k - 1);
      StepsDecrease(states[k - 1], events[k - 1], states[k]);
    }
  }
}
