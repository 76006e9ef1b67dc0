/** Safety of the tree upload over whole runs. Every reachable state is related to one status
    per node; the relation is kept by every step, and the promises are read off the statuses.
 */
module TreeUploadSafety {
  import opened Options
  import opened NodeWorker
  import opened TreeUpload

  /** The one place a node is at: In(k, g) is a call of stage k's fn on goroutine g that has
      neither passed the node on nor reported it. */
  datatype Status =
    | Unsent | Statted | Counted
    | Queued(k: Stage) | In(k: Stage, g: nat)
    | Skipped | Uploaded

  ghost function One(st: seq<Status>, n: nat, s: Status): nat {
    if n < |st| && st[n] == s then 1 else 0
  }

  ghost predicate StatInv(cfg: Config, r: Rest, st: seq<Status>) {
    && |st| == |cfg.nodes|
    && r.emitted <= |st|
    && (r.statClosed ==> r.emitted == |st|)
    && (forall n :: 0 <= n < |st| ==> (st[n] == Unsent <==> r.emitted <= n))
    && (forall n: nat :: multiset(r.stattedc)[n] == One(st, n, Statted))
  }

  ghost predicate LoopInv(r: Rest, st: seq<Status>) {
    && (r.loop.Forwarding? ==> r.loop.n < |st|)
    && (forall n :: 0 <= n < |st| ==> (st[n] == Counted <==> r.loop == Forwarding(n)))
  }

  ghost predicate QueueInv(pending: multiset<nat>, st: seq<Status>, k: Stage) {
    forall n: nat :: pending[n] == One(st, n, Queued(k))
  }

  ghost predicate FrameInv(pcs: map<nat, Pc>, frames: map<nat, nat>, st: seq<Status>, k: Stage) {
    && pcs.Keys == frames.Keys
    && (forall g :: g in frames && pcs[g] != Ret ==> frames[g] < |st| && st[frames[g]] == In(k, g))
    && (forall n :: 0 <= n < |st| && st[n].In? && st[n].k == k ==>
          st[n].g in frames && frames[st[n].g] == n && pcs[st[n].g] != Ret)
  }

  /** refs are the results of the first children of n, in order. */
  ghost predicate Gathered(cfg: Config, results: map<nat, PutResult>, n: nat, refs: seq<nat>) {
    var children := NodeOf(cfg, n).children;
    && |refs| <= |children|
    && forall j :: 0 <= j < |refs| ==> children[j] in results && results[children[j]].ref == refs[j]
  }

  ghost predicate Complete(cfg: Config, results: map<nat, PutResult>, n: nat, refs: seq<nat>) {
    Gathered(cfg, results, n, refs) && |refs| == |NodeOf(cfg, n).children|
  }

  ghost predicate PcInv(cfg: Config, results: map<nat, PutResult>, pc: Pc, n: nat, k: Stage) {
    var isDir := NodeOf(cfg, n).isDir;
    match pc
    case Entry => !k.Dir?
    case Wait(refs) => k.Dir? && isDir && Gathered(cfg, results, n, refs)
    case Put(res) => if k.Dir? then isDir && Complete(cfg, results, n, res.members) else !isDir
    case SendUpload => k.Check?
    case SendDir => k.Upload? && isDir
    case SendSkipped => k.Check? && !isDir
    case SendUploaded => !k.Check?
    case Ret => true
  }

  ghost predicate PcsInv(cfg: Config, results: map<nat, PutResult>, pcs: map<nat, Pc>, frames: map<nat, nat>, k: Stage) {
    forall g :: g in frames && g in pcs ==> PcInv(cfg, results, pcs[g], frames[g], k)
  }

  ghost predicate Reporting(pcs: map<nat, Pc>, g: nat) {
    g in pcs && (pcs[g] == SendSkipped || pcs[g] == SendUploaded)
  }

  ghost predicate Resolved(r: Rest, s: Status) {
    s == Skipped || s == Uploaded || (s.In? && Reporting(Pcs(r, s.k), s.g))
  }

  ghost predicate ResultInv(cfg: Config, r: Rest, st: seq<Status>) {
    && (forall n :: n in r.results ==> n < |st|)
    && (forall n :: 0 <= n < |st| ==> (n in r.results <==> Resolved(r, st[n])))
    && (forall n :: n in r.results && NodeOf(cfg, n).isDir ==> Complete(cfg, r.results, n, r.results[n].members))
    && (forall n :: 0 <= n < |st| && st[n] == Queued(Dir) ==> NodeOf(cfg, n).isDir)
    && (forall n :: 0 <= n < |st| && st[n] == Skipped ==> !NodeOf(cfg, n).isDir)
  }

  ghost predicate DoneInv(p: Pool, end: EndPc) {
    && (p.sentinel <==> end != NotCalled)
    && (p.sentinel ==> p.closed && p.pending == multiset{} && p.frames == map[])
  }

  /** Each channel is closed by the one process that could still send on it, when it is done. */
  ghost predicate CloseInv(v: Sys<Pool>) {
    && DoneInv(v.check, v.r.checkEnd) && DoneInv(v.upload, v.r.uploadEnd) && DoneInv(v.dir, v.r.dirEnd)
    && (v.check.closed <==> v.r.stattedNil)
    && (v.r.stattedNil ==> v.r.statClosed && v.r.stattedc == [] && !v.r.loop.Forwarding?)
    && (v.upload.closed <==> v.r.checkEnd == Finished)
    && (v.dir.closed <==> v.r.uploadEnd == Finished)
    && (v.r.loop == Exited <==> v.r.dirEnd == Finished)
  }

  datatype Tallied = Total | Skip | Upl

  ghost predicate Counts(t: Tallied, s: Status) {
    match t
    case Total => s != Unsent && s != Statted
    case Skip => s == Skipped
    case Upl => s == Uploaded
  }

  ghost function Add(a: Stats, b: Stats): Stats {
    Stats(a.files + b.files, a.bytes + b.bytes)
  }

  /** The bytes of the files among the first n nodes that are in `which`. */
  ghost function FileBytes(nodes: seq<FileNode>, which: set<nat>, n: nat): nat
    requires n <= |nodes|
  {
    if n == 0 then 0
    else FileBytes(nodes, which, n - 1) + if n - 1 in which && !nodes[n - 1].isDir then nodes[n - 1].size else 0
  }

  /** How many nodes these are, and the bytes of the files among them. */
  ghost function StatsOf(nodes: seq<FileNode>, which: set<nat>): Stats {
    Stats(|which|, FileBytes(nodes, which, |nodes|))
  }

  ghost function Having(st: seq<Status>, t: Tallied): set<nat> {
    set n: nat | n < |st| && Counts(t, st[n])
  }

  ghost predicate TallyInv(cfg: Config, r: Rest, st: seq<Status>) {
    && |st| == |cfg.nodes|
    && r.total == StatsOf(cfg.nodes, Having(st, Total))
    && r.skipped == StatsOf(cfg.nodes, Having(st, Skip))
    && r.uploaded == StatsOf(cfg.nodes, Having(st, Upl))
  }

  ghost predicate StageInv(cfg: Config, results: map<nat, PutResult>, pcs: map<nat, Pc>,
                           pending: multiset<nat>, frames: map<nat, nat>, st: seq<Status>, k: Stage) {
    && QueueInv(pending, st, k)
    && FrameInv(pcs, frames, st, k)
    && PcsInv(cfg, results, pcs, frames, k)
  }

  ghost predicate StageAt(cfg: Config, v: Sys<Pool>, st: seq<Status>, k: Stage) {
    StageInv(cfg, v.r.results, Pcs(v.r, k), v.At(k).pending, v.At(k).frames, st, k)
  }

  ghost predicate StagesInv(cfg: Config, v: Sys<Pool>, st: seq<Status>) {
    forall k :: StageAt(cfg, v, st, k)
  }

  ghost predicate UploadInv(cfg: Config, v: Sys<Pool>, st: seq<Status>) {
    && !v.r.panicked
    && StatInv(cfg, v.r, st)
    && LoopInv(v.r, st)
    && StagesInv(cfg, v, st)
    && ResultInv(cfg, v.r, st)
    && CloseInv(v)
    && TallyInv(cfg, v.r, st)
  }

  // ---- Tallies -------------------------------------------------------------------------

  lemma {:induction false} BytesMore(nodes: seq<FileNode>, which: set<nat>, m: nat, n: nat)
    requires n <= |nodes| && m !in which
    ensures FileBytes(nodes, which + {m}, n) ==
            FileBytes(nodes, which, n) + if m < n && !nodes[m].isDir then nodes[m].size else 0
  {
    if n > 0 { BytesMore(nodes, which, m, n - 1); }
  }

  /** incr adds a node to what is counted. */
  lemma StatsMore(nodes: seq<FileNode>, which: set<nat>, m: nat)
    requires m < |nodes| && m !in which
    ensures StatsOf(nodes, which + {m}) == Incr(StatsOf(nodes, which), nodes[m])
  {
    BytesMore(nodes, which, m, |nodes|);
  }

  lemma HavingSame(st: seq<Status>, n: nat, s: Status, t: Tallied)
    requires n < |st| && Counts(t, st[n]) == Counts(t, s)
    ensures Having(st[n := s], t) == Having(st, t)
  {
  }

  lemma HavingMore(st: seq<Status>, n: nat, s: Status, t: Tallied)
    requires n < |st| && !Counts(t, st[n]) && Counts(t, s)
    ensures Having(st[n := s], t) == Having(st, t) + {n} && n !in Having(st, t)
  {
  }

  lemma TallyMore(nodes: seq<FileNode>, st: seq<Status>, n: nat, s: Status, t: Tallied)
    requires |st| == |nodes| && n < |st| && !Counts(t, st[n]) && Counts(t, s)
    ensures StatsOf(nodes, Having(st[n := s], t)) == Incr(StatsOf(nodes, Having(st, t)), nodes[n])
  {
    HavingMore(st, n, s, t);
    StatsMore(nodes, Having(st, t), n);
  }

  lemma {:induction false} BytesNone(nodes: seq<FileNode>, n: nat)
    requires n <= |nodes|
    ensures FileBytes(nodes, {}, n) == 0
  {
    if n > 0 { BytesNone(nodes, n - 1); }
  }

  lemma TallyNone(nodes: seq<FileNode>, st: seq<Status>, t: Tallied)
    requires |st| == |nodes| && forall i :: 0 <= i < |st| ==> !Counts(t, st[i])
    ensures StatsOf(nodes, Having(st, t)) == Stats(0, 0)
  {
    assert Having(st, t) == {};
    BytesNone(nodes, |nodes|);
  }

  lemma {:induction false} BytesSplit(nodes: seq<FileNode>, a: set<nat>, b: set<nat>, n: nat)
    requires n <= |nodes| && a !! b
    ensures FileBytes(nodes, a + b, n) == FileBytes(nodes, a, n) + FileBytes(nodes, b, n)
  {
    if n > 0 { BytesSplit(nodes, a, b, n - 1); }
  }

  lemma StatsSplit(nodes: seq<FileNode>, a: set<nat>, b: set<nat>)
    requires a !! b
    ensures StatsOf(nodes, a + b) == Add(StatsOf(nodes, a), StatsOf(nodes, b))
  {
    BytesSplit(nodes, a, b, |nodes|);
  }

  lemma TallyKeep(cfg: Config, r: Rest, st: seq<Status>, n: nat, s: Status)
    requires TallyInv(cfg, r, st) && n < |st| && forall t :: Counts(t, st[n]) == Counts(t, s)
    ensures TallyInv(cfg, r, st[n := s])
  {
    HavingSame(st, n, s, Total);
    HavingSame(st, n, s, Skip);
    HavingSame(st, n, s, Upl);
  }

  // ---- What the loop takes over ------------------------------------------------------------

  /** The loop takes node n over, from stattedc, skippedc or uploadedc. */
  ghost predicate Takes(v: Sys<Pool>, a: Action, t: Tallied, n: nat) {
    match a
    case LoopRecv => t == Total && v.r.stattedc != [] && v.r.stattedc[0] == n
    case LoopSkipped(g) => t == Skip && g in v.check.frames && v.check.frames[g] == n
    case LoopUploaded(k, g) => t == Upl && g in v.At(k).frames && v.At(k).frames[g] == n
    case _ => false
  }

  /** The step counts exactly the nodes that the loop takes over in it. */
  ghost predicate Recorded(v: Sys<Pool>, a: Action, st: seq<Status>, st': seq<Status>)
    requires |st| == |st'|
  {
    forall t, n: nat :: n < |st| ==> (Counts(t, st'[n]) <==> Counts(t, st[n]) || Takes(v, a, t, n))
  }

  /** The node that changes its place in a step, and where it goes. */
  ghost function Mover(v: Sys<Pool>, a: Action): Option<(nat, Status)> {
    match a
    case StatEmit => Some((v.r.emitted, Statted))
    case LoopRecv => if v.r.stattedc != [] then Some((v.r.stattedc[0], Counted)) else None
    case LoopForward => if v.r.loop.Forwarding? then Some((v.r.loop.n, Queued(Check))) else None
    case LoopSkipped(g) => if g in v.check.frames then Some((v.check.frames[g], Skipped)) else None
    case LoopUploaded(k, g) => if g in v.At(k).frames then Some((v.At(k).frames[g], Uploaded)) else None
    case PoolCall(k, g, n, _) => Some((n, In(k, g)))
    case ToUpload(g) => if g in v.check.frames then Some((v.check.frames[g], Queued(Upload))) else None
    case ToDir(g) => if g in v.upload.frames then Some((v.upload.frames[g], Queued(Dir))) else None
    case _ => None
  }

  /** Where the nodes are after the step. */
  ghost function Moved(v: Sys<Pool>, st: seq<Status>, a: Action): (st': seq<Status>)
    ensures |st'| == |st|
  {
    match Mover(v, a)
    case Some((n, s)) => if n < |st| then st[n := s] else st
    case None => st
  }

  // ---- How one stage follows a change of one node's status -------------------------------

  ghost predicate Elsewhere(s: Status, k: Stage) {
    s != Queued(k) && !(s.In? && s.k == k)
  }

  lemma StageKeep(cfg: Config, results: map<nat, PutResult>, pcs: map<nat, Pc>, pending: multiset<nat>,
                  frames: map<nat, nat>, st: seq<Status>, k: Stage, n: nat, s: Status)
    requires StageInv(cfg, results, pcs, pending, frames, st, k)
    requires n < |st| && Elsewhere(st[n], k) && Elsewhere(s, k)
    ensures StageInv(cfg, results, pcs, pending, frames, st[n := s], k)
  {
  }

  lemma StageEnqueue(cfg: Config, results: map<nat, PutResult>, pcs: map<nat, Pc>, pending: multiset<nat>,
                     frames: map<nat, nat>, st: seq<Status>, k: Stage, n: nat)
    requires StageInv(cfg, results, pcs, pending, frames, st, k)
    requires n < |st| && Elsewhere(st[n], k)
    ensures StageInv(cfg, results, pcs, pending + multiset{n}, frames, st[n := Queued(k)], k)
  {
  }

  lemma StageCall(cfg: Config, results: map<nat, PutResult>, pcs: map<nat, Pc>, pending: multiset<nat>,
                  frames: map<nat, nat>, st: seq<Status>, k: Stage, n: nat, g: nat, pc: Pc)
    requires StageInv(cfg, results, pcs, pending, frames, st, k)
    requires n in pending && g !in frames && pc != Ret && PcInv(cfg, results, pc, n, k)
    ensures n < |st| && st[n] == Queued(k)
    ensures StageInv(cfg, results, pcs[g := pc], pending - multiset{n}, frames[g := n], st[n := In(k, g)], k)
  {
    assert pending[n] == One(st, n, Queued(k));
  }

  lemma StageGoto(cfg: Config, results: map<nat, PutResult>, pcs: map<nat, Pc>, pending: multiset<nat>,
                  frames: map<nat, nat>, st: seq<Status>, k: Stage, g: nat, pc: Pc)
    requires StageInv(cfg, results, pcs, pending, frames, st, k)
    requires g in frames && pcs[g] != Ret && pc != Ret && PcInv(cfg, results, pc, frames[g], k)
    ensures frames[g] < |st| && st[frames[g]] == In(k, g)
    ensures StageInv(cfg, results, pcs[g := pc], pending, frames, st, k)
  {
  }

  lemma StageLeave(cfg: Config, results: map<nat, PutResult>, pcs: map<nat, Pc>, pending: multiset<nat>,
                   frames: map<nat, nat>, st: seq<Status>, k: Stage, g: nat, s: Status)
    requires StageInv(cfg, results, pcs, pending, frames, st, k)
    requires g in frames && pcs[g] != Ret && Elsewhere(s, k)
    ensures frames[g] < |st| && st[frames[g]] == In(k, g)
    ensures StageInv(cfg, results, pcs[g := Ret], pending, frames, st[frames[g] := s], k)
  {
  }

  lemma StageReturn(cfg: Config, results: map<nat, PutResult>, pcs: map<nat, Pc>, pending: multiset<nat>,
                    frames: map<nat, nat>, st: seq<Status>, k: Stage, g: nat)
    requires StageInv(cfg, results, pcs, pending, frames, st, k)
    requires g in frames && pcs[g] == Ret
    ensures StageInv(cfg, results, pcs - {g}, pending, frames - {g}, st, k)
  {
    assert (pcs - {g}).Keys == (frames - {g}).Keys;
  }

  lemma StageResult(cfg: Config, results: map<nat, PutResult>, pcs: map<nat, Pc>, pending: multiset<nat>,
                    frames: map<nat, nat>, st: seq<Status>, k: Stage, n: nat, res: PutResult)
    requires StageInv(cfg, results, pcs, pending, frames, st, k) && n !in results
    ensures StageInv(cfg, results[n := res], pcs, pending, frames, st, k)
  {
  }

  // ---- The pieces outside the stages -----------------------------------------------------

  ghost predicate Behind(s: Status) {
    s.Queued? || s.In? || s.Skipped? || s.Uploaded?
  }

  lemma FrontKeep(cfg: Config, r: Rest, st: seq<Status>, n: nat, s: Status)
    requires StatInv(cfg, r, st) && LoopInv(r, st)
    requires n < |st| && Behind(st[n]) && Behind(s)
    ensures StatInv(cfg, r, st[n := s]) && LoopInv(r, st[n := s])
  {
  }

  /** A change of n's status and of the program counters keeps the results in step when no
      node gains or loses its result. */
  lemma ResultMove(cfg: Config, r: Rest, st: seq<Status>, r': Rest, n: nat, s: Status)
    requires ResultInv(cfg, r, st) && n < |st|
    requires r'.results == r.results
    requires Resolved(r', s) == Resolved(r, st[n])
    requires forall m :: 0 <= m < |st| && m != n ==> Resolved(r', st[m]) == Resolved(r, st[m])
    requires (s == Queued(Dir) ==> NodeOf(cfg, n).isDir) && (s == Skipped ==> !NodeOf(cfg, n).isDir)
    ensures ResultInv(cfg, r', st[n := s])
  {
  }

  /** Only the node of call g of stage k is affected by that call moving on. */
  lemma OthersKeep(cfg: Config, v: Sys<Pool>, st: seq<Status>, k: Stage, g: nat, pc: Pc, r': Rest)
    requires StageAt(cfg, v, st, k) && g in v.At(k).frames
    requires forall k' :: Pcs(r', k') == if k' == k then Pcs(v.r, k)[g := pc] else Pcs(v.r, k')
    ensures forall m :: 0 <= m < |st| && m != v.At(k).frames[g] ==> Resolved(r', st[m]) == Resolved(v.r, st[m])
  {
  }

  // ---- One lemma per kind of action -------------------------------------------------------

  lemma InitInv(cfg: Config) returns (st: seq<Status>)
    requires WellFormed(cfg)
    ensures WorkersInv(Init(cfg)) && UploadInv(cfg, View(Init(cfg)), st)
  {
    st := seq(|cfg.nodes|, i => Unsent);
    TallyNone(cfg.nodes, st, Total);
    TallyNone(cfg.nodes, st, Skip);
    TallyNone(cfg.nodes, st, Upl);
  }

  lemma GotoStages(cfg: Config, v: Sys<Pool>, st: seq<Status>, k: Stage, g: nat, pc: Pc, v': Sys<Pool>)
    requires StagesInv(cfg, v, st) && g in v.At(k).frames && g in Pcs(v.r, k)
    requires Pcs(v.r, k)[g] != Ret && pc != Ret && PcInv(cfg, v.r.results, pc, v.At(k).frames[g], k)
    requires v' == v.(r := Goto(v.r, k, g, pc))
    ensures StagesInv(cfg, v', st)
  {
    forall k' ensures StageAt(cfg, v', st, k') {
      assert StageAt(cfg, v, st, k');
      if k' == k {
        StageGoto(cfg, v.r.results, Pcs(v.r, k), v.At(k).pending, v.At(k).frames, st, k, g, pc);
      }
    }
  }

  lemma GotoResults(cfg: Config, v: Sys<Pool>, st: seq<Status>, k: Stage, g: nat, pc: Pc, v': Sys<Pool>)
    requires StagesInv(cfg, v, st) && ResultInv(cfg, v.r, st) && g in v.At(k).frames && g in Pcs(v.r, k)
    requires Pcs(v.r, k)[g] != Ret && pc != Ret && !Reporting(Pcs(v.r, k), g) && pc != SendSkipped && pc != SendUploaded
    requires v' == v.(r := Goto(v.r, k, g, pc))
    ensures ResultInv(cfg, v'.r, st)
  {
    var n := v.At(k).frames[g];
    assert StageAt(cfg, v, st, k);
    OthersKeep(cfg, v, st, k, g, pc, v'.r);
    ResultMove(cfg, v.r, st, v'.r, n, st[n]);
    assert st[n := st[n]] == st;
  }

  /** A call moves on inside its fn without passing its node on or setting its result. */
  lemma DoGoto(cfg: Config, v: Sys<Pool>, st: seq<Status>, k: Stage, g: nat, pc: Pc, v': Sys<Pool>)
    requires UploadInv(cfg, v, st)
    requires g in v.At(k).frames && g in Pcs(v.r, k)
    requires Pcs(v.r, k)[g] != Ret && pc != Ret && PcInv(cfg, v.r.results, pc, v.At(k).frames[g], k)
    requires !Reporting(Pcs(v.r, k), g) && pc != SendSkipped && pc != SendUploaded
    requires v' == v.(r := Goto(v.r, k, g, pc))
    ensures UploadInv(cfg, v', st)
  {
    GotoStages(cfg, v, st, k, g, pc, v');
    GotoResults(cfg, v, st, k, g, pc, v');
  }

  /** A call of stage k has handed its node to stage k2. */
  ghost predicate Passes(v: Sys<Pool>, k: Stage, k2: Stage, g: nat, v': Sys<Pool>) {
    && g in v.At(k).frames && g in Pcs(v.r, k)
    && ((k.Check? && k2.Upload? && v' == v.(r := Goto(v.r, k, g, Ret), upload := v'.upload)) ||
        (k.Upload? && k2.Dir? && v' == v.(r := Goto(v.r, k, g, Ret), dir := v'.dir)))
    && Pcs(v.r, k)[g] == (if k2.Dir? then SendDir else SendUpload)
    && PoolNext(v.At(k2), Send(v.At(k).frames[g]), v'.At(k2))
  }

  lemma PassStages(cfg: Config, v: Sys<Pool>, st: seq<Status>, k: Stage, k2: Stage, g: nat, v': Sys<Pool>)
    requires StagesInv(cfg, v, st) && Passes(v, k, k2, g, v')
    ensures v.At(k).frames[g] < |st| && st[v.At(k).frames[g]] == In(k, g)
    ensures StagesInv(cfg, v', st[v.At(k).frames[g] := Queued(k2)])
  {
    var n := v.At(k).frames[g];
    assert StageAt(cfg, v, st, k);
    var st' := st[n := Queued(k2)];
    forall k' ensures StageAt(cfg, v', st', k') {
      assert StageAt(cfg, v, st, k');
      if k' == k {
        StageLeave(cfg, v.r.results, Pcs(v.r, k), v.At(k).pending, v.At(k).frames, st, k, g, Queued(k2));
      } else if k' == k2 {
        StageEnqueue(cfg, v.r.results, Pcs(v.r, k2), v.At(k2).pending, v.At(k2).frames, st, k2, n);
      } else {
        StageKeep(cfg, v.r.results, Pcs(v.r, k'), v.At(k').pending, v.At(k').frames, st, k', n, Queued(k2));
      }
    }
  }

  lemma PassResults(cfg: Config, v: Sys<Pool>, st: seq<Status>, k: Stage, k2: Stage, g: nat, v': Sys<Pool>)
    requires StagesInv(cfg, v, st) && ResultInv(cfg, v.r, st) && Passes(v, k, k2, g, v')
    ensures v.At(k).frames[g] < |st| && ResultInv(cfg, v'.r, st[v.At(k).frames[g] := Queued(k2)])
  {
    assert StageAt(cfg, v, st, k);
    OthersKeep(cfg, v, st, k, g, Ret, v'.r);
    ResultMove(cfg, v.r, st, v'.r, v.At(k).frames[g], Queued(k2));
  }

  lemma PassClose(v: Sys<Pool>, k: Stage, k2: Stage, g: nat, v': Sys<Pool>)
    requires CloseInv(v) && Passes(v, k, k2, g, v')
    ensures CloseInv(v')
  {
  }

  /** A call hands its node to the next stage, whose channel is still open. */
  lemma DoPassOn(cfg: Config, v: Sys<Pool>, st: seq<Status>, k: Stage, k2: Stage, g: nat, v': Sys<Pool>) returns (st': seq<Status>)
    requires UploadInv(cfg, v, st) && Passes(v, k, k2, g, v')
    ensures UploadInv(cfg, v', st')
    ensures v.At(k).frames[g] < |st| && st[v.At(k).frames[g]] == In(k, g) && st' == st[v.At(k).frames[g] := Queued(k2)]
  {
    var (n, s) := (v.At(k).frames[g], Queued(k2));
    PassStages(cfg, v, st, k, k2, g, v');
    PassResults(cfg, v, st, k, k2, g, v');
    PassClose(v, k, k2, g, v');
    FrontKeep(cfg, v.r, st, n, s);
    TallyKeep(cfg, v.r, st, n, s);
    st' := st[n := s];
  }

  /** The loop has received the node of a call of stage k, from skippedc or uploadedc. */
  ghost predicate Reports(cfg: Config, v: Sys<Pool>, k: Stage, g: nat, v': Sys<Pool>) {
    && g in v.At(k).frames && g in Pcs(v.r, k) && Reporting(Pcs(v.r, k), g)
    && var r1 := if k.Check? then v.r.(skipped := Incr(v.r.skipped, NodeOf(cfg, v.At(k).frames[g])))
                 else v.r.(uploaded := Incr(v.r.uploaded, NodeOf(cfg, v.At(k).frames[g])));
       v' == v.(r := Goto(r1, k, g, Ret))
  }

  lemma ReportStages(cfg: Config, v: Sys<Pool>, st: seq<Status>, k: Stage, g: nat, s: Status, v': Sys<Pool>)
    requires StagesInv(cfg, v, st) && Reports(cfg, v, k, g, v') && (s == Skipped || s == Uploaded)
    ensures v.At(k).frames[g] < |st| && st[v.At(k).frames[g]] == In(k, g)
    ensures StagesInv(cfg, v', st[v.At(k).frames[g] := s])
  {
    var n := v.At(k).frames[g];
    assert StageAt(cfg, v, st, k);
    var st' := st[n := s];
    forall k' ensures StageAt(cfg, v', st', k') {
      assert StageAt(cfg, v, st, k');
      if k' == k {
        StageLeave(cfg, v.r.results, Pcs(v.r, k), v.At(k).pending, v.At(k).frames, st, k, g, s);
      } else {
        StageKeep(cfg, v.r.results, Pcs(v.r, k'), v.At(k').pending, v.At(k').frames, st, k', n, s);
      }
    }
  }

  lemma ReportResults(cfg: Config, v: Sys<Pool>, st: seq<Status>, k: Stage, g: nat, s: Status, v': Sys<Pool>)
    requires StagesInv(cfg, v, st) && ResultInv(cfg, v.r, st) && Reports(cfg, v, k, g, v') && s == if k.Check? then Skipped else Uploaded
    ensures v.At(k).frames[g] < |st| && ResultInv(cfg, v'.r, st[v.At(k).frames[g] := s])
  {
    assert StageAt(cfg, v, st, k);
    assert PcInv(cfg, v.r.results, Pcs(v.r, k)[g], v.At(k).frames[g], k);
    OthersKeep(cfg, v, st, k, g, Ret, v'.r);
    ResultMove(cfg, v.r, st, v'.r, v.At(k).frames[g], s);
  }

  lemma DoReport(cfg: Config, v: Sys<Pool>, st: seq<Status>, k: Stage, g: nat, v': Sys<Pool>) returns (st': seq<Status>)
    requires UploadInv(cfg, v, st) && Reports(cfg, v, k, g, v')
    ensures UploadInv(cfg, v', st')
    ensures v.At(k).frames[g] < |st| && st[v.At(k).frames[g]] == In(k, g)
    ensures st' == st[v.At(k).frames[g] := if k.Check? then Skipped else Uploaded]
  {
    var n := v.At(k).frames[g];
    var s := if k.Check? then Skipped else Uploaded;
    ReportStages(cfg, v, st, k, g, s, v');
    ReportResults(cfg, v, st, k, g, s, v');
    FrontKeep(cfg, v.r, st, n, s);
    TallyReport(cfg, v.r, st, n, s, v'.r);
    st' := st[n := s];
  }

  lemma TallyReport(cfg: Config, r: Rest, st: seq<Status>, n: nat, s: Status, r': Rest)
    requires TallyInv(cfg, r, st) && n < |st| && st[n].In? && r'.total == r.total
    requires || (s.Skipped? && r'.skipped == Incr(r.skipped, cfg.nodes[n]) && r'.uploaded == r.uploaded)
             || (s.Uploaded? && r'.uploaded == Incr(r.uploaded, cfg.nodes[n]) && r'.skipped == r.skipped)
    ensures TallyInv(cfg, r', st[n := s])
  {
    HavingSame(st, n, s, Total);
    if s.Skipped? {
      TallyMore(cfg.nodes, st, n, s, Skip);
      HavingSame(st, n, s, Upl);
    } else {
      TallyMore(cfg.nodes, st, n, s, Upl);
      HavingSame(st, n, s, Skip);
    }
  }

  /** Unchanged statuses, program counters, queues and calls. */
  ghost predicate SameWork(v: Sys<Pool>, v': Sys<Pool>) {
    && v'.r.results == v.r.results
    && v'.r.pcs == v.r.pcs
    && v'.check.pending == v.check.pending && v'.check.frames == v.check.frames
    && v'.upload.pending == v.upload.pending && v'.upload.frames == v.upload.frames
    && v'.dir.pending == v.dir.pending && v'.dir.frames == v.dir.frames
  }

  lemma WorkKeep(cfg: Config, v: Sys<Pool>, st: seq<Status>, v': Sys<Pool>)
    requires StagesInv(cfg, v, st) && ResultInv(cfg, v.r, st) && SameWork(v, v')
    ensures StagesInv(cfg, v', st) && ResultInv(cfg, v'.r, st)
  {
    forall k ensures StageAt(cfg, v', st, k) { assert StageAt(cfg, v, st, k); }
    assert forall s :: Resolved(v'.r, s) == Resolved(v.r, s);
  }

  lemma OutsideMove(cfg: Config, v: Sys<Pool>, st: seq<Status>, n: nat, s: Status)
    requires StagesInv(cfg, v, st) && ResultInv(cfg, v.r, st)
    requires n < |st| && !Behind(st[n]) && !Behind(s)
    ensures StagesInv(cfg, v, st[n := s]) && ResultInv(cfg, v.r, st[n := s])
  {
    var st' := st[n := s];
    forall k ensures StageAt(cfg, v, st', k) {
      assert StageAt(cfg, v, st, k);
      StageKeep(cfg, v.r.results, Pcs(v.r, k), v.At(k).pending, v.At(k).frames, st, k, n, s);
    }
    ResultMove(cfg, v.r, st, v.r, n, s);
  }

  lemma DoCall(cfg: Config, v: Sys<Pool>, st: seq<Status>, k: Stage, g: nat, n: nat, i: nat, v': Sys<Pool>) returns (st': seq<Status>)
    requires UploadInv(cfg, v, st)
    requires PoolNext(v.At(k), Call(g, n, i), v'.At(k)) && (forall k' :: k' != k ==> v'.At(k') == v.At(k'))
    requires v'.r == Goto(v.r, k, g, if k.Dir? then Wait([]) else Entry)
    ensures UploadInv(cfg, v', st')
    ensures n < |st| && st[n] == Queued(k) && st' == st[n := In(k, g)]
  {
    assert StageAt(cfg, v, st, k);
    QueuedIsDir(cfg, v, st, k, n);
    st' := st[n := In(k, g)];
    CallStages(cfg, v, st, k, g, n, i, v');
    CloseKeep(v, k, Pcs(v'.r, k), v');
    FrontKeep(cfg, v.r, st, n, In(k, g));
    CallResults(cfg, v, st, k, g, n, v'.r);
    TallyKeep(cfg, v.r, st, n, In(k, g));
  }

  /** A call or a return inside a stage that has not had its sentinel call closes nothing. */
  lemma CloseKeep(v: Sys<Pool>, k: Stage, m: map<nat, Pc>, v': Sys<Pool>)
    requires CloseInv(v) && v'.r == SetPcs(v.r, k, m)
    requires v'.At(k).closed == v.At(k).closed && !v.At(k).sentinel && !v'.At(k).sentinel
    requires forall k' :: k' != k ==> v'.At(k') == v.At(k')
    ensures CloseInv(v')
  {
    assert v'.At(Check) == v'.check && v'.At(Upload) == v'.upload && v'.At(Dir) == v'.dir;
  }

  lemma QueuedIsDir(cfg: Config, v: Sys<Pool>, st: seq<Status>, k: Stage, n: nat)
    requires StageAt(cfg, v, st, k) && ResultInv(cfg, v.r, st) && n in v.At(k).pending
    ensures n < |st| && st[n] == Queued(k) && (k.Dir? ==> NodeOf(cfg, n).isDir)
  {
    assert v.At(k).pending[n] == One(st, n, Queued(k));
  }

  lemma CallStages(cfg: Config, v: Sys<Pool>, st: seq<Status>, k: Stage, g: nat, n: nat, i: nat, v': Sys<Pool>)
    requires StagesInv(cfg, v, st) && n < |st| && st[n] == Queued(k) && (k.Dir? ==> NodeOf(cfg, n).isDir)
    requires PoolNext(v.At(k), Call(g, n, i), v'.At(k)) && (forall k' :: k' != k ==> v'.At(k') == v.At(k'))
    requires v'.r == Goto(v.r, k, g, if k.Dir? then Wait([]) else Entry)
    ensures StagesInv(cfg, v', st[n := In(k, g)])
  {
    var st' := st[n := In(k, g)];
    forall k' ensures StageAt(cfg, v', st', k') {
      assert StageAt(cfg, v, st, k');
      if k' == k {
        StageCall(cfg, v.r.results, Pcs(v.r, k), v.At(k).pending, v.At(k).frames, st, k, n, g, if k.Dir? then Wait([]) else Entry);
      } else {
        StageKeep(cfg, v.r.results, Pcs(v.r, k'), v.At(k').pending, v.At(k').frames, st, k', n, In(k, g));
      }
    }
  }

  lemma CallResults(cfg: Config, v: Sys<Pool>, st: seq<Status>, k: Stage, g: nat, n: nat, r': Rest)
    requires ResultInv(cfg, v.r, st) && StageAt(cfg, v, st, k) && n < |st| && st[n] == Queued(k)
    requires g !in v.At(k).frames && r' == Goto(v.r, k, g, if k.Dir? then Wait([]) else Entry)
    ensures ResultInv(cfg, r', st[n := In(k, g)])
  {
    forall m | 0 <= m < |st| && m != n ensures Resolved(r', st[m]) == Resolved(v.r, st[m]) {
      assert st[m] != In(k, g);
    }
    ResultMove(cfg, v.r, st, r', n, In(k, g));
  }

  lemma DoReturn(cfg: Config, v: Sys<Pool>, st: seq<Status>, k: Stage, g: nat, n: nat, v': Sys<Pool>)
    requires UploadInv(cfg, v, st) && At(v, k, g, Ret)
    requires PoolNext(v.At(k), Return(g, n), v'.At(k)) && (forall k' :: k' != k ==> v'.At(k') == v.At(k'))
    requires v'.r == SetPcs(v.r, k, Pcs(v.r, k) - {g})
    ensures UploadInv(cfg, v', st)
  {
    forall k' ensures StageAt(cfg, v', st, k') {
      assert StageAt(cfg, v, st, k');
      if k' == k {
        StageReturn(cfg, v.r.results, Pcs(v.r, k), v.At(k).pending, v.At(k).frames, st, k, g);
      }
    }
    ReturnResults(cfg, v, st, k, g, v'.r);
    CloseKeep(v, k, Pcs(v'.r, k), v');
  }

  lemma ReturnResults(cfg: Config, v: Sys<Pool>, st: seq<Status>, k: Stage, g: nat, r': Rest)
    requires ResultInv(cfg, v.r, st) && StageAt(cfg, v, st, k) && At(v, k, g, Ret)
    requires r' == SetPcs(v.r, k, Pcs(v.r, k) - {g})
    ensures ResultInv(cfg, r', st)
  {
    forall m | 0 <= m < |st| ensures Resolved(r', st[m]) == Resolved(v.r, st[m]) {
      assert st[m] != In(k, g);
    }
  }

  /** SetPutResult finds no result there yet. */
  lemma DoSetResult(cfg: Config, v: Sys<Pool>, st: seq<Status>, k: Stage, g: nat, v': Sys<Pool>)
    requires UploadInv(cfg, v, st) && PoolStep(cfg, v, SetResult(k, g), v')
    ensures UploadInv(cfg, v', st)
  {
    FirstResult(cfg, v, st, k, g);
    var n := v.At(k).frames[g];
    var r1 := v.r.(results := v.r.results[n := Pcs(v.r, k)[g].res]);
    var pc := if k.Check? then SendSkipped else SendUploaded;
    assert v' == v.(r := Goto(r1, k, g, pc));
    forall k' ensures StageAt(cfg, v', st, k') {
      SetResultStage(cfg, v, st, k, g, v', k');
    }
    OthersKeep(cfg, v, st, k, g, pc, v'.r);
    ResultAdd(cfg, v.r, st, v'.r, n, Pcs(v.r, k)[g].res);
  }

  lemma FirstResult(cfg: Config, v: Sys<Pool>, st: seq<Status>, k: Stage, g: nat)
    requires StagesInv(cfg, v, st) && ResultInv(cfg, v.r, st)
    requires g in Pcs(v.r, k) && Pcs(v.r, k)[g].Put? && g in v.At(k).frames
    ensures var n := v.At(k).frames[g];
            && n < |st| && st[n] == In(k, g) && n !in v.r.results
            && (NodeOf(cfg, n).isDir ==> Complete(cfg, v.r.results, n, Pcs(v.r, k)[g].res.members))
  {
    assert StageAt(cfg, v, st, k);
    assert PcInv(cfg, v.r.results, Pcs(v.r, k)[g], v.At(k).frames[g], k);
  }

  lemma SetResultStage(cfg: Config, v: Sys<Pool>, st: seq<Status>, k: Stage, g: nat, v': Sys<Pool>, k': Stage)
    requires StageAt(cfg, v, st, k') && g in v.At(k).frames && g in Pcs(v.r, k) && Pcs(v.r, k)[g].Put?
    requires v.At(k).frames[g] !in v.r.results
    requires var r1 := v.r.(results := v.r.results[v.At(k).frames[g] := Pcs(v.r, k)[g].res]);
             v' == v.(r := Goto(r1, k, g, if k.Check? then SendSkipped else SendUploaded))
    ensures StageAt(cfg, v', st, k')
  {
    var n := v.At(k).frames[g];
    var res := Pcs(v.r, k)[g].res;
    StageResult(cfg, v.r.results, Pcs(v.r, k'), v.At(k').pending, v.At(k').frames, st, k', n, res);
    if k' == k {
      var pc := if k.Check? then SendSkipped else SendUploaded;
      StageGoto(cfg, v.r.results[n := res], Pcs(v.r, k), v.At(k).pending, v.At(k).frames, st, k, g, pc);
    }
  }

  lemma ResultAdd(cfg: Config, r: Rest, st: seq<Status>, r': Rest, n: nat, res: PutResult)
    requires ResultInv(cfg, r, st) && n < |st| && n !in r.results
    requires r'.results == r.results[n := res] && Resolved(r', st[n])
    requires forall m :: 0 <= m < |st| && m != n ==> Resolved(r', st[m]) == Resolved(r, st[m])
    requires NodeOf(cfg, n).isDir ==> Complete(cfg, r.results, n, res.members)
    ensures ResultInv(cfg, r', st)
  {
    CompleteGrows(cfg, r.results, n, res);
  }

  /** Static sets stay complete, and a directory's own result is complete when it is set. */
  lemma CompleteGrows(cfg: Config, results: map<nat, PutResult>, n: nat, res: PutResult)
    requires n !in results
    requires forall m :: m in results && NodeOf(cfg, m).isDir ==> Complete(cfg, results, m, results[m].members)
    requires NodeOf(cfg, n).isDir ==> Complete(cfg, results, n, res.members)
    ensures var results' := results[n := res];
            forall m :: m in results' && NodeOf(cfg, m).isDir ==> Complete(cfg, results', m, results'[m].members)
  {
  }

  lemma DoSentinel(cfg: Config, v: Sys<Pool>, st: seq<Status>, k: Stage, v': Sys<Pool>)
    requires UploadInv(cfg, v, st) && PoolStep(cfg, v, PoolSentinel(k), v')
    ensures UploadInv(cfg, v', st)
  {
    WorkKeep(cfg, v, st, v');
  }

  lemma DoClose(cfg: Config, v: Sys<Pool>, st: seq<Status>, a: Action, v': Sys<Pool>)
    requires UploadInv(cfg, v, st) && PoolStep(cfg, v, a, v')
    requires a.LoopStattedClosed? || a.CloseUpload? || a.CloseDir?
    ensures UploadInv(cfg, v', st)
  {
    WorkKeep(cfg, v, st, v');
  }

  lemma DoQuiet(cfg: Config, v: Sys<Pool>, st: seq<Status>, a: Action, v': Sys<Pool>)
    requires UploadInv(cfg, v, st) && PoolStep(cfg, v, a, v')
    requires a.LoopExit? || a.LoopRoot? || a.StatRoot? || a.StatClose? || a.PoolInternal?
    ensures UploadInv(cfg, v', st)
  {
    WorkKeep(cfg, v, st, v');
  }

  lemma DoStatEmit(cfg: Config, v: Sys<Pool>, st: seq<Status>, v': Sys<Pool>)
    requires UploadInv(cfg, v, st) && PoolStep(cfg, v, StatEmit, v')
    ensures UploadInv(cfg, v', Moved(v, st, StatEmit))
  {
    var n := v.r.emitted;
    var st' := st[n := Statted];
    OutsideMove(cfg, v, st, n, Statted);
    WorkKeep(cfg, v, st', v');
    TallyKeep(cfg, v.r, st, n, Statted);
  }

  lemma DoLoopRecv(cfg: Config, v: Sys<Pool>, st: seq<Status>, v': Sys<Pool>)
    requires UploadInv(cfg, v, st) && PoolStep(cfg, v, LoopRecv, v')
    ensures UploadInv(cfg, v', Moved(v, st, LoopRecv))
  {
    var n := v.r.stattedc[0];
    RecvFront(cfg, v.r, st);
    var st' := st[n := Counted];
    OutsideMove(cfg, v, st, n, Counted);
    WorkKeep(cfg, v, st', v');
    TallyMore(cfg.nodes, st, n, Counted, Total);
    HavingSame(st, n, Counted, Skip);
    HavingSame(st, n, Counted, Upl);
  }

  lemma RecvFront(cfg: Config, r: Rest, st: seq<Status>)
    requires StatInv(cfg, r, st) && r.stattedc != []
    ensures var n := r.stattedc[0];
            && n < |st| && st[n] == Statted
            && StatInv(cfg, r.(stattedc := r.stattedc[1..]), st[n := Counted])
  {
    var n := r.stattedc[0];
    var rest: multiset<nat> := multiset(r.stattedc[1..]);
    assert r.stattedc == [n] + r.stattedc[1..];
    assert multiset(r.stattedc) == multiset{n} + rest;
    assert multiset(r.stattedc)[n] == One(st, n, Statted);
    forall m: nat ensures rest[m] == One(st[n := Counted], m, Statted) {
      assert multiset(r.stattedc)[m] == One(st, m, Statted);
    }
  }

  /** The loop has sent its node to the first stage. */
  ghost predicate Forwards(v: Sys<Pool>, v': Sys<Pool>) {
    && v.r.loop.Forwarding? && v' == v.(r := v.r.(loop := Selecting), check := v'.check)
    && PoolNext(v.check, Send(v.r.loop.n), v'.check)
  }

  lemma ForwardStages(cfg: Config, v: Sys<Pool>, st: seq<Status>, v': Sys<Pool>)
    requires StagesInv(cfg, v, st) && Forwards(v, v') && v.r.loop.n < |st| && st[v.r.loop.n] == Counted
    ensures StagesInv(cfg, v', st[v.r.loop.n := Queued(Check)])
  {
    var (n, s) := (v.r.loop.n, Queued(Check));
    var st' := st[n := s];
    forall k ensures StageAt(cfg, v', st', k) {
      assert StageAt(cfg, v, st, k);
      if k.Check? {
        StageEnqueue(cfg, v.r.results, Pcs(v.r, k), v.At(k).pending, v.At(k).frames, st, k, n);
      } else {
        StageKeep(cfg, v.r.results, Pcs(v.r, k), v.At(k).pending, v.At(k).frames, st, k, n, s);
      }
    }
  }

  lemma ForwardResults(cfg: Config, v: Sys<Pool>, st: seq<Status>, v': Sys<Pool>)
    requires ResultInv(cfg, v.r, st) && Forwards(v, v') && v.r.loop.n < |st| && st[v.r.loop.n] == Counted
    ensures ResultInv(cfg, v'.r, st[v.r.loop.n := Queued(Check)])
  {
    assert forall s :: Resolved(v'.r, s) == Resolved(v.r, s);
    ResultMove(cfg, v.r, st, v'.r, v.r.loop.n, Queued(Check));
  }

  lemma DoLoopForward(cfg: Config, v: Sys<Pool>, st: seq<Status>, v': Sys<Pool>)
    requires UploadInv(cfg, v, st) && PoolStep(cfg, v, LoopForward, v')
    ensures UploadInv(cfg, v', Moved(v, st, LoopForward))
  {
    var (n, s) := (v.r.loop.n, Queued(Check));
    assert Forwards(v, v');
    ForwardStages(cfg, v, st, v');
    ForwardResults(cfg, v, st, v');
    TallyKeep(cfg, v.r, st, n, s);
    var st' := st[n := s];
  }

  lemma DoCacheLookup(cfg: Config, v: Sys<Pool>, st: seq<Status>, g: nat, hit: Option<PutResult>, v': Sys<Pool>)
    requires UploadInv(cfg, v, st) && PoolStep(cfg, v, CacheLookup(g, hit), v')
    ensures UploadInv(cfg, v', st)
  {
    DoGoto(cfg, v, st, Check, g, if hit.None? then SendUpload else Put(hit.value), v');
  }

  lemma DoUploadNode(cfg: Config, v: Sys<Pool>, st: seq<Status>, g: nat, ref: nat, v': Sys<Pool>)
    requires UploadInv(cfg, v, st) && PoolStep(cfg, v, UploadNode(g, ref), v')
    ensures UploadInv(cfg, v', st)
  {
    DoGoto(cfg, v, st, Upload, g, if NodeOf(cfg, v.upload.frames[g]).isDir then SendDir else Put(PutResult(ref, [])), v');
  }

  lemma DoAwaitChild(cfg: Config, v: Sys<Pool>, st: seq<Status>, g: nat, v': Sys<Pool>)
    requires UploadInv(cfg, v, st) && PoolStep(cfg, v, AwaitChild(g), v')
    ensures UploadInv(cfg, v', st)
  {
    assert StageAt(cfg, v, st, Dir);
    assert PcInv(cfg, v.r.results, v.r.pcs.dir[g], v.dir.frames[g], Dir);
    GatherOne(cfg, v.r.results, v.dir.frames[g], v.r.pcs.dir[g].refs);
    DoGoto(cfg, v, st, Dir, g, v'.r.pcs.dir[g], v');
  }

  lemma GatherOne(cfg: Config, results: map<nat, PutResult>, n: nat, refs: seq<nat>)
    requires var children := NodeOf(cfg, n).children;
             Gathered(cfg, results, n, refs) && |refs| < |children| && children[|refs|] in results
    ensures Gathered(cfg, results, n, refs + [results[NodeOf(cfg, n).children[|refs|]].ref])
  {
  }

  lemma DoUploadDir(cfg: Config, v: Sys<Pool>, st: seq<Status>, g: nat, ref: nat, v': Sys<Pool>)
    requires UploadInv(cfg, v, st) && PoolStep(cfg, v, UploadDir(g, ref), v')
    ensures UploadInv(cfg, v', st)
  {
    assert StageAt(cfg, v, st, Dir);
    assert PcInv(cfg, v.r.results, v.r.pcs.dir[g], v.dir.frames[g], Dir);
    DoGoto(cfg, v, st, Dir, g, v'.r.pcs.dir[g], v');
  }

  lemma DoToUpload(cfg: Config, v: Sys<Pool>, st: seq<Status>, g: nat, v': Sys<Pool>)
    requires UploadInv(cfg, v, st) && PoolStep(cfg, v, ToUpload(g), v')
    ensures UploadInv(cfg, v', Moved(v, st, ToUpload(g)))
  {
    assert !v.check.sentinel && !v.upload.closed;
    var st' := DoPassOn(cfg, v, st, Check, Upload, g, v');
  }

  lemma DoToDir(cfg: Config, v: Sys<Pool>, st: seq<Status>, g: nat, v': Sys<Pool>)
    requires UploadInv(cfg, v, st) && PoolStep(cfg, v, ToDir(g), v')
    ensures UploadInv(cfg, v', Moved(v, st, ToDir(g)))
  {
    assert !v.upload.sentinel && !v.dir.closed;
    var st' := DoPassOn(cfg, v, st, Upload, Dir, g, v');
  }

  /** What a call changes. */
  lemma CallIs(cfg: Config, v: Sys<Pool>, k: Stage, g: nat, n: nat, i: nat, v': Sys<Pool>)
    requires PoolStep(cfg, v, PoolCall(k, g, n, i), v')
    ensures PoolNext(v.At(k), Call(g, n, i), v'.At(k)) && (forall k' :: k' != k ==> v'.At(k') == v.At(k'))
    ensures v'.r == Goto(v.r, k, g, if k.Dir? then Wait([]) else Entry)
  {
  }

  lemma DoPoolCall(cfg: Config, v: Sys<Pool>, st: seq<Status>, k: Stage, g: nat, n: nat, i: nat, v': Sys<Pool>)
    requires UploadInv(cfg, v, st) && PoolStep(cfg, v, PoolCall(k, g, n, i), v')
    ensures UploadInv(cfg, v', Moved(v, st, PoolCall(k, g, n, i)))
  {
    CallIs(cfg, v, k, g, n, i, v');
    var st' := DoCall(cfg, v, st, k, g, n, i, v');
    assert Mover(v, PoolCall(k, g, n, i)) == Some((n, In(k, g)));
    assert Moved(v, st, PoolCall(k, g, n, i)) == st';
  }

  lemma DoPoolReturn(cfg: Config, v: Sys<Pool>, st: seq<Status>, k: Stage, g: nat, n: nat, v': Sys<Pool>)
    requires UploadInv(cfg, v, st) && PoolStep(cfg, v, PoolReturn(k, g, n), v')
    ensures UploadInv(cfg, v', st)
  {
    DoReturn(cfg, v, st, k, g, n, v');
  }

  lemma LoopReports(cfg: Config, v: Sys<Pool>, st: seq<Status>, k: Stage, a: Action, v': Sys<Pool>)
    requires StageAt(cfg, v, st, k) && PoolStep(cfg, v, a, v') && ((a.LoopSkipped? && k.Check?) || (a.LoopUploaded? && a.k == k))
    ensures Reports(cfg, v, k, a.g, v') && (a.LoopSkipped? <==> k.Check?)
  {
    assert PcInv(cfg, v.r.results, Pcs(v.r, k)[a.g], v.At(k).frames[a.g], k);
  }

  lemma ReportMoves(v: Sys<Pool>, st: seq<Status>, a: Action, k: Stage)
    requires (a.LoopSkipped? && k.Check?) || (a.LoopUploaded? && a.k == k && !k.Check?)
    requires a.g in v.At(k).frames && v.At(k).frames[a.g] < |st|
    ensures Moved(v, st, a) == st[v.At(k).frames[a.g] := if k.Check? then Skipped else Uploaded]
  {
  }

  lemma DoLoopReport(cfg: Config, v: Sys<Pool>, st: seq<Status>, a: Action, v': Sys<Pool>)
    requires UploadInv(cfg, v, st) && PoolStep(cfg, v, a, v') && (a.LoopSkipped? || a.LoopUploaded?)
    ensures UploadInv(cfg, v', Moved(v, st, a))
  {
    var k := if a.LoopSkipped? then Check else a.k;
    assert StageAt(cfg, v, st, k);
    LoopReports(cfg, v, st, k, a, v');
    var st' := DoReport(cfg, v, st, k, a.g, v');
    ReportMoves(v, st, a, k);
  }

  lemma LoopStepInv(cfg: Config, v: Sys<Pool>, st: seq<Status>, a: Action, v': Sys<Pool>)
    requires UploadInv(cfg, v, st) && PoolStep(cfg, v, a, v') && !InFn(a) && !InPool(a)
    ensures UploadInv(cfg, v', Moved(v, st, a))
  {
    match a
    case StatEmit => DoStatEmit(cfg, v, st, v');
    case LoopRecv => DoLoopRecv(cfg, v, st, v');
    case LoopForward => DoLoopForward(cfg, v, st, v');
    case LoopStattedClosed => DoClose(cfg, v, st, a, v');
    case LoopSkipped(_) => DoLoopReport(cfg, v, st, a, v');
    case LoopUploaded(_, _) => DoLoopReport(cfg, v, st, a, v');
    case _ => DoQuiet(cfg, v, st, a, v');
  }

  lemma PoolStepInv(cfg: Config, v: Sys<Pool>, st: seq<Status>, a: Action, v': Sys<Pool>)
    requires UploadInv(cfg, v, st) && PoolStep(cfg, v, a, v') && InPool(a)
    ensures UploadInv(cfg, v', Moved(v, st, a))
  {
    match a
    case PoolCall(k, g, n, i) => DoPoolCall(cfg, v, st, k, g, n, i, v');
    case PoolReturn(k, g, n) => DoPoolReturn(cfg, v, st, k, g, n, v');
    case PoolSentinel(k) => DoSentinel(cfg, v, st, k, v');
    case PoolInternal(_, _) => DoQuiet(cfg, v, st, a, v');
  }

  lemma FnStepInv(cfg: Config, v: Sys<Pool>, st: seq<Status>, a: Action, v': Sys<Pool>)
    requires UploadInv(cfg, v, st) && PoolStep(cfg, v, a, v') && InFn(a)
    ensures UploadInv(cfg, v', Moved(v, st, a))
  {
    match a
    case CloseUpload => DoClose(cfg, v, st, a, v');
    case CloseDir => DoClose(cfg, v, st, a, v');
    case CacheLookup(g, hit) => DoCacheLookup(cfg, v, st, g, hit, v');
    case SetResult(k, g) => DoSetResult(cfg, v, st, k, g, v');
    case ToUpload(g) => DoToUpload(cfg, v, st, g, v');
    case UploadNode(g, ref) => DoUploadNode(cfg, v, st, g, ref, v');
    case ToDir(g) => DoToDir(cfg, v, st, g, v');
    case AwaitChild(g) => DoAwaitChild(cfg, v, st, g, v');
    case UploadDir(g, ref) => DoUploadDir(cfg, v, st, g, ref, v');
  }

  /** Every step of every process keeps the relation; in particular none panics. */
  lemma StepInv(cfg: Config, v: Sys<Pool>, st: seq<Status>, a: Action, v': Sys<Pool>)
    requires UploadInv(cfg, v, st) && PoolStep(cfg, v, a, v')
    ensures UploadInv(cfg, v', Moved(v, st, a))
  {
    if InFn(a) {
      FnStepInv(cfg, v, st, a, v');
    } else if InPool(a) {
      PoolStepInv(cfg, v, st, a, v');
    } else {
      LoopStepInv(cfg, v, st, a, v');
    }
  }

  lemma RecordMove(v: Sys<Pool>, a: Action, st: seq<Status>, n: nat, s: Status)
    requires Mover(v, a) == Some((n, s)) && n < |st| && forall t :: Counts(t, s) <==> Counts(t, st[n]) || Takes(v, a, t, n)
    requires forall t, m: nat :: Takes(v, a, t, m) ==> m == n
    ensures Recorded(v, a, st, Moved(v, st, a))
  {
  }

  /** A node that moves and is not taken over is counted as before. */
  lemma MovedUncounted(v: Sys<Pool>, st: seq<Status>, a: Action)
    requires !a.LoopRecv? && !a.LoopSkipped? && !a.LoopUploaded?
    requires Mover(v, a).Some? && Mover(v, a).value.0 < |st| ==> forall t :: Counts(t, Mover(v, a).value.1) == Counts(t, st[Mover(v, a).value.0])
    ensures Recorded(v, a, st, Moved(v, st, a))
  {
  }

  lemma CallUncounted(cfg: Config, v: Sys<Pool>, st: seq<Status>, k: Stage, g: nat, n: nat, i: nat, v': Sys<Pool>)
    requires StageAt(cfg, v, st, k) && PoolStep(cfg, v, PoolCall(k, g, n, i), v')
    ensures Recorded(v, PoolCall(k, g, n, i), st, Moved(v, st, PoolCall(k, g, n, i)))
  {
    assert n in v.At(k).pending;
    assert v.At(k).pending[n] == One(st, n, Queued(k));
    MovedUncounted(v, st, PoolCall(k, g, n, i));
  }

  lemma ReportAt(cfg: Config, v: Sys<Pool>, a: Action, k: Stage, g: nat, v': Sys<Pool>)
    requires PoolStep(cfg, v, a, v') && ((a == LoopSkipped(g) && k == Check) || a == LoopUploaded(k, g))
    ensures At(v, k, g, if a.LoopSkipped? then SendSkipped else SendUploaded)
  {
  }

  lemma ReportCounted(cfg: Config, v: Sys<Pool>, st: seq<Status>, a: Action, k: Stage, g: nat)
    requires StageAt(cfg, v, st, k) && ((a == LoopSkipped(g) && k == Check) || a == LoopUploaded(k, g))
    requires At(v, k, g, if a.LoopSkipped? then SendSkipped else SendUploaded)
    ensures Recorded(v, a, st, Moved(v, st, a))
  {
    assert PcInv(cfg, v.r.results, Pcs(v.r, k)[g], v.At(k).frames[g], k);
    RecordMove(v, a, st, v.At(k).frames[g], if k.Check? then Skipped else Uploaded);
  }

  lemma PassUncounted(cfg: Config, v: Sys<Pool>, st: seq<Status>, k: Stage, a: Action, g: nat, v': Sys<Pool>)
    requires StageAt(cfg, v, st, k) && PoolStep(cfg, v, a, v') && ((a == ToUpload(g) && k == Check) || (a == ToDir(g) && k == Upload))
    ensures Recorded(v, a, st, Moved(v, st, a))
  {
    assert st[v.At(k).frames[g]] == In(k, g);
    MovedUncounted(v, st, a);
  }

  lemma FrontRecords(cfg: Config, v: Sys<Pool>, st: seq<Status>, a: Action, v': Sys<Pool>)
    requires StatInv(cfg, v.r, st) && LoopInv(v.r, st) && PoolStep(cfg, v, a, v') && (a.StatEmit? || a.LoopRecv? || a.LoopForward?)
    ensures Recorded(v, a, st, Moved(v, st, a))
  {
    if a.LoopRecv? {
      RecvFront(cfg, v.r, st);
    } else {
      MovedUncounted(v, st, a);
    }
  }

  /** The counts change by exactly the nodes that the loop takes over. */
  lemma StepRecords(cfg: Config, v: Sys<Pool>, st: seq<Status>, a: Action, v': Sys<Pool>)
    requires StatInv(cfg, v.r, st) && LoopInv(v.r, st) && StagesInv(cfg, v, st) && PoolStep(cfg, v, a, v')
    ensures Recorded(v, a, st, Moved(v, st, a))
  {
    match a
    case StatEmit => FrontRecords(cfg, v, st, a, v');
    case LoopRecv => FrontRecords(cfg, v, st, a, v');
    case LoopForward => FrontRecords(cfg, v, st, a, v');
    case LoopSkipped(g) =>
      ReportAt(cfg, v, a, Check, g, v');
      ReportCounted(cfg, v, st, a, Check, g);
    case LoopUploaded(k, g) =>
      ReportAt(cfg, v, a, k, g, v');
      ReportCounted(cfg, v, st, a, k, g);
    case PoolCall(k, g, n, i) => CallUncounted(cfg, v, st, k, g, n, i, v');
    case ToUpload(g) => PassUncounted(cfg, v, st, Check, a, g, v');
    case ToDir(g) => PassUncounted(cfg, v, st, Upload, a, g, v');
    case _ =>
  }

  // ---- Whole runs --------------------------------------------------------------------------

  ghost predicate IsUpload(cfg: Config, states: seq<Sys<Worker>>, actions: seq<Action>) {
    && WellFormed(cfg)
    && |states| == |actions| + 1
    && states[0] == Init(cfg)
    && forall i :: 0 <= i < |actions| ==> Step(cfg, states[i], actions[i], states[i + 1])
  }

  /** The loop has taken node n over in one of the first i steps. */
  ghost predicate TakenBefore(states: seq<Sys<Worker>>, actions: seq<Action>, i: nat, t: Tallied, n: nat) {
    exists j: nat :: j < i && j < |actions| && j < |states| && Takes(View(states[j]), actions[j], t, n)
  }

  /** The statuses count exactly the nodes that the loop has taken over. */
  ghost predicate Accounted(states: seq<Sys<Worker>>, actions: seq<Action>, i: nat, st: seq<Status>) {
    forall t, n: nat :: n < |st| ==> (Counts(t, st[n]) <==> TakenBefore(states, actions, i, t, n))
  }

  /** The pools are in order and some statuses of the nodes fit the state and the steps so far. */
  ghost predicate IsSafe(cfg: Config, states: seq<Sys<Worker>>, actions: seq<Action>, i: nat) {
    exists st :: i < |states| && WorkersInv(states[i]) && UploadInv(cfg, View(states[i]), st) && Accounted(states, actions, i, st)
  }

  lemma RunStarts(cfg: Config, states: seq<Sys<Worker>>, actions: seq<Action>)
    ensures IsUpload(cfg, states, actions) ==> IsSafe(cfg, states, actions, 0)
  {
    if IsUpload(cfg, states, actions) {
      var st := InitInv(cfg);
      assert Accounted(states, actions, 0, st);
    }
  }

  lemma AccountedMore(states: seq<Sys<Worker>>, actions: seq<Action>, i: nat, st: seq<Status>, st': seq<Status>)
    requires i < |actions| && i < |states| && Accounted(states, actions, i, st)
    requires |st| == |st'| && Recorded(View(states[i]), actions[i], st, st')
    ensures Accounted(states, actions, i + 1, st')
  {
    forall t, n: nat ensures TakenBefore(states, actions, i + 1, t, n) <==>
                             TakenBefore(states, actions, i, t, n) || Takes(View(states[i]), actions[i], t, n) {}
  }

  lemma RunGoesOn(cfg: Config, states: seq<Sys<Worker>>, actions: seq<Action>, i: nat)
    ensures IsUpload(cfg, states, actions) && i < |actions| && IsSafe(cfg, states, actions, i) ==> IsSafe(cfg, states, actions, i + 1)
  {
    if IsUpload(cfg, states, actions) && i < |actions| && IsSafe(cfg, states, actions, i) {
      var st :| WorkersInv(states[i]) && UploadInv(cfg, View(states[i]), st) && Accounted(states, actions, i, st);
      var (v, v') := (View(states[i]), View(states[i + 1]));
      StepRefines(cfg, states[i], actions[i], states[i + 1]);
      StepInv(cfg, v, st, actions[i], v');
      StepRecords(cfg, v, st, actions[i], v');
      AccountedMore(states, actions, i, st, Moved(v, st, actions[i]));
    }
  }

  /** The first n states are safe. */
  ghost predicate AllSafe(cfg: Config, states: seq<Sys<Worker>>, actions: seq<Action>, n: nat) {
    forall i: nat :: i < n && i < |states| ==> IsSafe(cfg, states, actions, i)
  }

  lemma AllSafeMore(cfg: Config, states: seq<Sys<Worker>>, actions: seq<Action>, n: nat)
    ensures IsUpload(cfg, states, actions) && n > 0 && AllSafe(cfg, states, actions, n) ==> AllSafe(cfg, states, actions, n + 1)
  {
    if n > 0 { RunGoesOn(cfg, states, actions, n - 1); }
  }

  lemma {:induction false} RunSafe(cfg: Config, states: seq<Sys<Worker>>, actions: seq<Action>, n: nat)
    ensures IsUpload(cfg, states, actions) && n > 0 ==> AllSafe(cfg, states, actions, n)
  {
    if n == 1 {
      RunStarts(cfg, states, actions);
    } else if n > 1 {
      RunSafe(cfg, states, actions, n - 1);
      AllSafeMore(cfg, states, actions, n - 1);
    }
  }

  lemma RunInv(cfg: Config, states: seq<Sys<Worker>>, actions: seq<Action>, i: nat) returns (st: seq<Status>)
    requires IsUpload(cfg, states, actions) && i <= |actions|
    ensures WorkersInv(states[i]) && UploadInv(cfg, View(states[i]), st) && Accounted(states, actions, i, st)
  {
    RunSafe(cfg, states, actions, i + 1);
    assert IsSafe(cfg, states, actions, i);
    st :| WorkersInv(states[i]) && UploadInv(cfg, View(states[i]), st) && Accounted(states, actions, i, st);
  }

  /** No run sends on a closed channel, closes a channel twice or sets a result twice. */
  lemma NeverPanics(cfg: Config, states: seq<Sys<Worker>>, actions: seq<Action>)
    requires IsUpload(cfg, states, actions)
    ensures forall i :: 0 <= i < |states| ==> !states[i].r.panicked
  {
    forall i | 0 <= i < |states| ensures !states[i].r.panicked {
      var st := RunInv(cfg, states, actions, i);
    }
  }

  /** Results are only added. */
  ghost predicate Extends(results: map<nat, PutResult>, results': map<nat, PutResult>) {
    forall n :: n in results ==> n in results' && results'[n] == results[n]
  }

  lemma PoolKeeps(v: Sys<Pool>, a: Action, r': Rest)
    requires PoolLocal(v, a) == Some(r')
    ensures r'.results == v.r.results
  {
    match a
    case PoolInternal(_, _) => return;
    case PoolCall(_, _, _, _) => return;
    case PoolReturn(_, _, _) => return;
    case PoolSentinel(_) => return;
  }

  lemma StatKeeps(cfg: Config, v: Sys<Pool>, a: Action, r': Rest)
    requires LoopLocal(cfg, v, a) == Some(r') && (a.StatEmit? || a.StatClose? || a.StatRoot?)
    ensures r'.results == v.r.results
  {
    match a
    case StatEmit => return;
    case StatClose => return;
    case StatRoot => return;
  }

  lemma ReportKeeps(cfg: Config, v: Sys<Pool>, a: Action, r': Rest)
    requires LoopLocal(cfg, v, a) == Some(r') && (a.LoopSkipped? || a.LoopUploaded?)
    ensures r'.results == v.r.results
  {
    match a
    case LoopSkipped(_) => return;
    case LoopUploaded(_, _) => return;
  }

  lemma LoopKeeps(cfg: Config, v: Sys<Pool>, a: Action, r': Rest)
    requires LoopLocal(cfg, v, a) == Some(r')
    ensures r'.results == v.r.results
  {
    match a
    case StatEmit => StatKeeps(cfg, v, a, r');
    case StatClose => StatKeeps(cfg, v, a, r');
    case StatRoot => StatKeeps(cfg, v, a, r');
    case LoopSkipped(_) => ReportKeeps(cfg, v, a, r');
    case LoopUploaded(_, _) => ReportKeeps(cfg, v, a, r');
    case LoopRecv => return;
    case LoopForward => return;
    case LoopStattedClosed => return;
    case LoopRoot => return;
    case LoopExit => return;
  }

  lemma LookupKeeps(cfg: Config, v: Sys<Pool>, g: nat, hit: Option<PutResult>, r': Rest)
    ensures FnLocal(cfg, v, CacheLookup(g, hit)) == Some(r') ==> r'.results == v.r.results
  {
  }

  lemma PassKeeps(cfg: Config, v: Sys<Pool>, g: nat, r': Rest)
    ensures FnLocal(cfg, v, ToUpload(g)) == Some(r') ==> r'.results == v.r.results
    ensures FnLocal(cfg, v, ToDir(g)) == Some(r') ==> r'.results == v.r.results
  {
  }

  lemma CloseKeeps(cfg: Config, v: Sys<Pool>, r': Rest)
    ensures FnLocal(cfg, v, CloseUpload) == Some(r') ==> r'.results == v.r.results
    ensures FnLocal(cfg, v, CloseDir) == Some(r') ==> r'.results == v.r.results
  {
  }

  lemma UploadKeeps(cfg: Config, v: Sys<Pool>, g: nat, ref: nat, r': Rest)
    ensures FnLocal(cfg, v, UploadNode(g, ref)) == Some(r') ==> r'.results == v.r.results
  {
  }

  lemma DirKeeps(cfg: Config, v: Sys<Pool>, g: nat, ref: nat, r': Rest)
    ensures FnLocal(cfg, v, AwaitChild(g)) == Some(r') ==> r'.results == v.r.results
    ensures FnLocal(cfg, v, UploadDir(g, ref)) == Some(r') ==> r'.results == v.r.results
  {
  }

  lemma FnKeeps(cfg: Config, v: Sys<Pool>, a: Action, r': Rest)
    requires InFn(a) && !a.SetResult?
    ensures FnLocal(cfg, v, a) == Some(r') ==> r'.results == v.r.results
  {
    match a
    case CacheLookup(g, hit) => LookupKeeps(cfg, v, g, hit, r');
    case ToUpload(g) => PassKeeps(cfg, v, g, r');
    case ToDir(g) => PassKeeps(cfg, v, g, r');
    case CloseUpload => CloseKeeps(cfg, v, r');
    case CloseDir => CloseKeeps(cfg, v, r');
    case UploadNode(g, ref) => UploadKeeps(cfg, v, g, ref, r');
    case AwaitChild(g) => DirKeeps(cfg, v, g, 0, r');
    case UploadDir(g, ref) => DirKeeps(cfg, v, g, ref, r');
  }

  lemma SetKeeps(cfg: Config, v: Sys<Pool>, k: Stage, g: nat, r': Rest)
    requires FnLocal(cfg, v, SetResult(k, g)) == Some(r') && !r'.panicked
    ensures Extends(v.r.results, r'.results)
  {
    assert v.At(k).frames[g] !in v.r.results;
  }

  /** Only SetPutResult changes the results. */
  lemma LocalSame(cfg: Config, v: Sys<Pool>, a: Action, r': Rest)
    ensures Local(cfg, v, a) == Some(r') && !a.SetResult? ==> r'.results == v.r.results
  {
    if Local(cfg, v, a) == Some(r') && !a.SetResult? {
      if InFn(a) {
        FnKeeps(cfg, v, a, r');
      } else if InPool(a) {
        PoolKeeps(v, a, r');
      } else {
        LoopKeeps(cfg, v, a, r');
      }
    }
  }

  lemma LocalKeeps(cfg: Config, v: Sys<Pool>, a: Action, r': Rest)
    ensures Local(cfg, v, a) == Some(r') && !r'.panicked ==> Extends(v.r.results, r'.results)
  {
    LocalSame(cfg, v, a, r');
    if Local(cfg, v, a) == Some(r') && !r'.panicked && a.SetResult? { SetKeeps(cfg, v, a.k, a.g, r'); }
  }

  lemma StepExtends(cfg: Config, states: seq<Sys<Worker>>, actions: seq<Action>, j: nat)
    ensures IsUpload(cfg, states, actions) && j < |actions| ==> Extends(states[j].r.results, states[j + 1].r.results)
  {
    if IsUpload(cfg, states, actions) && j < |actions| {
      NeverPanics(cfg, states, actions);
      LocalKeeps(cfg, View(states[j]), actions[j], states[j + 1].r);
    }
  }

  lemma {:induction false} ExtendsChain(results: seq<map<nat, PutResult>>, i: nat, j: nat)
    requires i <= j < |results| && forall k :: 0 <= k < |results| - 1 ==> Extends(results[k], results[k + 1])
    ensures Extends(results[i], results[j])
  {
    if i < j {
      ExtendsChain(results, i, j - 1);
      assert Extends(results[j - 1], results[j - 1 + 1]);
    }
  }

  /** A result, once set, never changes. */
  lemma ResultsAreFinal(cfg: Config, states: seq<Sys<Worker>>, actions: seq<Action>, i: nat, j: nat, n: nat)
    requires IsUpload(cfg, states, actions) && i <= j <= |actions| && n in states[i].r.results
    ensures n in states[j].r.results && states[j].r.results[n] == states[i].r.results[n]
  {
    var results := seq(|states|, k requires 0 <= k < |states| => states[k].r.results);
    forall k | 0 <= k < |results| - 1 ensures Extends(results[k], results[k + 1]) { StepExtends(cfg, states, actions, k); }
    ExtendsChain(results, i, j);
  }

  /** m is somewhere under the directory n. */
  ghost predicate Beneath(cfg: Config, m: nat, n: nat)
    requires ChildrenFirst(cfg.nodes)
    decreases n
  {
    n < |cfg.nodes| && exists c :: c in cfg.nodes[n].children && (m == c || Beneath(cfg, m, c))
  }

  /** In every state of every run, a directory that has a result was uploaded with exactly the
      results of its children, in order, and everything under it has a result. */
  lemma DirectoryLast(cfg: Config, states: seq<Sys<Worker>>, actions: seq<Action>, i: nat, n: nat)
    requires IsUpload(cfg, states, actions) && i <= |actions|
    requires n in states[i].r.results && n < |cfg.nodes| && cfg.nodes[n].isDir
    requires forall j :: 0 <= j < |cfg.nodes| && cfg.nodes[j].children != [] ==> cfg.nodes[j].isDir
    ensures var results := states[i].r.results;
            && |results[n].members| == |cfg.nodes[n].children|
            && (forall j :: 0 <= j < |cfg.nodes[n].children| ==>
                  cfg.nodes[n].children[j] in results && results[cfg.nodes[n].children[j]].ref == results[n].members[j])
    ensures forall m :: Beneath(cfg, m, n) ==> m in states[i].r.results
  {
    var st := RunInv(cfg, states, actions, i);
    forall m | Beneath(cfg, m, n) ensures m in states[i].r.results {
      BeneathHasResult(cfg, states[i].r.results, m, n);
    }
  }

  lemma {:induction false} BeneathHasResult(cfg: Config, results: map<nat, PutResult>, m: nat, n: nat)
    requires ChildrenFirst(cfg.nodes) && Beneath(cfg, m, n) && n in results
    requires forall k :: k in results && NodeOf(cfg, k).isDir ==> Complete(cfg, results, k, results[k].members)
    requires forall j :: 0 <= j < |cfg.nodes| && cfg.nodes[j].children != [] ==> cfg.nodes[j].isDir
    ensures m in results
    decreases n
  {
    var c :| c in cfg.nodes[n].children && (m == c || Beneath(cfg, m, c));
    var j :| 0 <= j < |cfg.nodes[n].children| && cfg.nodes[n].children[j] == c;
    if m != c { BeneathHasResult(cfg, results, m, c); }
  }

  /** The nodes that the loop has taken over in the first i steps. */
  ghost function Taken(cfg: Config, states: seq<Sys<Worker>>, actions: seq<Action>, i: nat, t: Tallied): set<nat> {
    set n: nat | n < |cfg.nodes| && TakenBefore(states, actions, i, t, n)
  }

  lemma TakenIsHaving(cfg: Config, states: seq<Sys<Worker>>, actions: seq<Action>, i: nat, st: seq<Status>, t: Tallied)
    requires |st| == |cfg.nodes| && Accounted(states, actions, i, st)
    ensures Taken(cfg, states, actions, i, t) == Having(st, t)
  {
  }

  /** In every state the statistics are those of the nodes received so far: their number, and the
      sizes of the files among them. */
  lemma StatsAreReceived(cfg: Config, states: seq<Sys<Worker>>, actions: seq<Action>, i: nat)
    requires IsUpload(cfg, states, actions) && i <= |actions|
    ensures states[i].r.total == StatsOf(cfg.nodes, Taken(cfg, states, actions, i, Total))
    ensures states[i].r.skipped == StatsOf(cfg.nodes, Taken(cfg, states, actions, i, Skip))
    ensures states[i].r.uploaded == StatsOf(cfg.nodes, Taken(cfg, states, actions, i, Upl))
  {
    var st := RunInv(cfg, states, actions, i);
    TakenIsHaving(cfg, states, actions, i, st, Total);
    TakenIsHaving(cfg, states, actions, i, st, Skip);
    TakenIsHaving(cfg, states, actions, i, st, Upl);
  }

  /** When the loop of run() exits, every node was counted, has its result, and was either skipped
      or uploaded, and no directory was skipped: the total is the number of nodes and the sizes of the
      files, and it is divided into what was skipped and what was uploaded. */
  lemma ExitAccounts(cfg: Config, states: seq<Sys<Worker>>, actions: seq<Action>, i: nat)
    requires IsUpload(cfg, states, actions) && i <= |actions|
    requires states[i].r.loop == Exited
    ensures var (r, skip, upl) := (states[i].r, Taken(cfg, states, actions, i, Skip), Taken(cfg, states, actions, i, Upl));
            && r.total == Stats(|cfg.nodes|, FileBytes(cfg.nodes, Below(|cfg.nodes|), |cfg.nodes|))
            && r.skipped == Stats(|skip|, FileBytes(cfg.nodes, skip, |cfg.nodes|))
            && r.uploaded == Stats(|upl|, FileBytes(cfg.nodes, upl, |cfg.nodes|))
            && skip + upl == Below(|cfg.nodes|) && skip !! upl && (forall n :: n in skip ==> !NodeOf(cfg, n).isDir)
            && r.total.files == r.skipped.files + r.uploaded.files && r.total.bytes == r.skipped.bytes + r.uploaded.bytes
            && (forall n: nat :: n in r.results <==> n < |cfg.nodes|)
  {
    ExitResults(cfg, states, actions, i);
    StatsAreReceived(cfg, states, actions, i);
    StatsSplit(cfg.nodes, Taken(cfg, states, actions, i, Skip), Taken(cfg, states, actions, i, Upl));
  }

  lemma ExitResults(cfg: Config, states: seq<Sys<Worker>>, actions: seq<Action>, i: nat)
    requires IsUpload(cfg, states, actions) && i <= |actions| && states[i].r.loop == Exited
    ensures forall n: nat :: n in states[i].r.results <==> n < |cfg.nodes|
    ensures Taken(cfg, states, actions, i, Total) == Below(|cfg.nodes|)
    ensures Taken(cfg, states, actions, i, Skip) + Taken(cfg, states, actions, i, Upl) == Below(|cfg.nodes|)
    ensures Taken(cfg, states, actions, i, Skip) !! Taken(cfg, states, actions, i, Upl)
    ensures forall n :: n in Taken(cfg, states, actions, i, Skip) ==> !NodeOf(cfg, n).isDir
  {
    var st := ExitStatuses(cfg, states, actions, i);
    ExitTaken(cfg, states, actions, i, st);
  }

  lemma ExitTaken(cfg: Config, states: seq<Sys<Worker>>, actions: seq<Action>, i: nat, st: seq<Status>)
    requires |st| == |cfg.nodes| && Accounted(states, actions, i, st)
    requires forall n :: 0 <= n < |st| ==> st[n] == Uploaded || (st[n] == Skipped && !NodeOf(cfg, n).isDir)
    ensures Taken(cfg, states, actions, i, Total) == Below(|cfg.nodes|)
    ensures Taken(cfg, states, actions, i, Skip) + Taken(cfg, states, actions, i, Upl) == Below(|cfg.nodes|)
    ensures Taken(cfg, states, actions, i, Skip) !! Taken(cfg, states, actions, i, Upl)
    ensures forall n :: n in Taken(cfg, states, actions, i, Skip) ==> !NodeOf(cfg, n).isDir
  {
    HavingAll(cfg, st);
    TakenIsHaving(cfg, states, actions, i, st, Total);
    TakenIsHaving(cfg, states, actions, i, st, Skip);
    TakenIsHaving(cfg, states, actions, i, st, Upl);
  }

  lemma HavingAll(cfg: Config, st: seq<Status>)
    requires forall n :: 0 <= n < |st| ==> st[n] == Uploaded || (st[n] == Skipped && !NodeOf(cfg, n).isDir)
    ensures Having(st, Total) == Below(|st|) == Having(st, Skip) + Having(st, Upl) && Having(st, Skip) !! Having(st, Upl)
    ensures forall n :: n in Having(st, Skip) ==> !NodeOf(cfg, n).isDir
  {
  }

  lemma ExitStatuses(cfg: Config, states: seq<Sys<Worker>>, actions: seq<Action>, i: nat) returns (st: seq<Status>)
    requires IsUpload(cfg, states, actions) && i <= |actions| && states[i].r.loop == Exited
    ensures |st| == |cfg.nodes| && forall n :: 0 <= n < |st| ==> st[n] == Skipped || st[n] == Uploaded
    ensures Accounted(states, actions, i, st)
    ensures forall n: nat :: n in states[i].r.results <==> n < |cfg.nodes|
    ensures forall n :: 0 <= n < |st| && st[n] == Skipped ==> !NodeOf(cfg, n).isDir
  {
    st := RunInv(cfg, states, actions, i);
    AllDone(cfg, View(states[i]), st);
  }

  lemma AllDone(cfg: Config, v: Sys<Pool>, st: seq<Status>)
    requires UploadInv(cfg, v, st) && v.r.loop == Exited
    ensures forall n :: 0 <= n < |st| ==> st[n] == Skipped || st[n] == Uploaded
  {
    forall n | 0 <= n < |st| ensures st[n] == Skipped || st[n] == Uploaded {
      assert multiset(v.r.stattedc)[n] == One(st, n, Statted);
      forall k ensures Elsewhere(st[n], k) {
        assert StageAt(cfg, v, st, k);
        assert v.At(k).pending[n] == One(st, n, Queued(k));
        assert v.At(k).pending == multiset{} && v.At(k).frames == map[];
      }
      assert st[n].Queued? || st[n].In? ==> Elsewhere(st[n], st[n].k);
    }
  }
}
