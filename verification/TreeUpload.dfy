/** The tree upload of cmd/camput/files.go: the stat goroutine, the select loop of run() and
    the three worker pools (stat cache, upload, directory upload), as one step relation.

    A step that sends on a closed channel, closes one twice or calls SetPutResult twice sets
    `panicked`, so the safety theorem is about what the code would do, not about guards.
 */
module TreeUpload {
  import opened Options
  import opened NodeWorker

  /** A *node; its identity is its position in the order in which statPath sends nodes. */
  datatype FileNode = FileNode(isDir: bool, size: nat, children: seq<nat>)

  /** A *client.PutResult; for a directory, `members` is the static set that was uploaded. */
  datatype PutResult = PutResult(ref: nat, members: seq<nat>)

  datatype Config = Config(
    nodes: seq<FileNode>,
    rootless: bool,       // nodes come from Enqueue, and stattedc is never closed
    statCache: bool,      // t.up.statCache != nil
    checkWorkers: int, uploadWorkers: int, dirWorkers: int)

  datatype Stats = Stats(files: nat, bytes: nat)

  function Incr(s: Stats, n: FileNode): Stats {
    Stats(s.files + 1, if n.isDir then s.bytes else s.bytes + n.size)
  }

  datatype Stage = Check | Upload | Dir

  datatype LoopPc = Selecting | Forwarding(n: nat) | Exited

  /** Where a call of a stage's fn has got to. */
  datatype Pc =
    | Entry
    | Wait(refs: seq<nat>)      // directoryStaticSet: results of the first children
    | Put(res: PutResult)       // about to call SetPutResult
    | SendUpload                // about to send on upload
    | SendDir                   // about to send on dirUpload
    | SendSkipped               // blocked on skippedc <- n
    | SendUploaded              // blocked on uploadedc <- n
    | Ret

  /** The calls under way in each stage, by goroutine. */
  datatype PcTable = PcTable(check: map<nat, Pc>, upload: map<nat, Pc>, dir: map<nat, Pc>) {
    function At(k: Stage): map<nat, Pc> {
      match k case Check => check case Upload => upload case Dir => dir
    }
    function With(k: Stage, m: map<nat, Pc>): PcTable {
      match k
      case Check => this.(check := m)
      case Upload => this.(upload := m)
      case Dir => this.(dir := m)
    }
  }

  /** Progress of a stage's fn(nil, false) call. */
  datatype EndPc = NotCalled | Called | Finished

  datatype Rest = Rest(
    emitted: nat, stattedc: seq<nat>, statClosed: bool, rootc: bool,
    loop: LoopPc, stattedNil: bool, gotRoot: bool,
    total: Stats, skipped: Stats, uploaded: Stats,
    pcs: PcTable,
    checkEnd: EndPc, uploadEnd: EndPc, dirEnd: EndPc,
    results: map<nat, PutResult>,
    panicked: bool)

  /** The whole system, over pools of type W. */
  datatype Sys<W> = Sys(r: Rest, check: W, upload: W, dir: W) {
    function At(k: Stage): W {
      match k case Check => check case Upload => upload case Dir => dir
    }
  }

  function Pcs(r: Rest, k: Stage): map<nat, Pc> {
    r.pcs.At(k)
  }

  function SetPcs(r: Rest, k: Stage, m: map<nat, Pc>): Rest {
    r.(pcs := r.pcs.With(k, m))
  }

  function NodeOf(cfg: Config, n: nat): FileNode {
    if n < |cfg.nodes| then cfg.nodes[n] else FileNode(false, 0, [])
  }

  datatype Action =
    | StatEmit | StatClose | StatRoot
    | LoopRecv | LoopForward | LoopStattedClosed | LoopRoot | LoopExit
    | LoopSkipped(g: nat) | LoopUploaded(k: Stage, g: nat)
    | PoolInternal(k: Stage, m: Move) | PoolCall(k: Stage, g: nat, n: nat, i: nat) | PoolReturn(k: Stage, g: nat, n: nat) | PoolSentinel(k: Stage)
    | CacheLookup(g: nat, hit: Option<PutResult>)
    | SetResult(k: Stage, g: nat)
    | ToUpload(g: nat) | CloseUpload
    | UploadNode(g: nat, ref: nat) | ToDir(g: nat) | CloseDir
    | AwaitChild(g: nat) | UploadDir(g: nat, ref: nat)

  predicate At(v: Sys<Pool>, k: Stage, g: nat, pc: Pc) {
    g in Pcs(v.r, k) && Pcs(v.r, k)[g] == pc && g in v.At(k).frames
  }

  function Goto(r: Rest, k: Stage, g: nat, pc: Pc): Rest {
    SetPcs(r, k, Pcs(r, k)[g := pc])
  }

  /** What an action leaves outside the pools, given what the pools look like; None when the
      action cannot happen. */
  function Local(cfg: Config, v: Sys<Pool>, a: Action): Option<Rest> {
    if InFn(a) then FnLocal(cfg, v, a) else if InPool(a) then PoolLocal(v, a) else LoopLocal(cfg, v, a)
  }

  /** The action is a step of a fn call. */
  predicate InFn(a: Action) {
    || a.CacheLookup? || a.ToUpload? || a.UploadNode? || a.ToDir? || a.AwaitChild? || a.UploadDir? || a.SetResult?
    || a.CloseUpload? || a.CloseDir?
  }

  /** The action is a step of a pool that its own goroutines take. */
  predicate InPool(a: Action) {
    a.PoolInternal? || a.PoolCall? || a.PoolReturn? || a.PoolSentinel?
  }

  function LoopLocal(cfg: Config, v: Sys<Pool>, a: Action): Option<Rest> {
    var r := v.r;
    var panic := r.(panicked := true);
    match a
    // the goroutine running statPath
    case StatEmit =>
      if r.emitted < |cfg.nodes| && |r.stattedc| < BUFFERED then
        Some(if r.statClosed then panic else r.(emitted := r.emitted + 1, stattedc := r.stattedc + [r.emitted]))
      else None
    case StatClose =>
      if !cfg.rootless && r.emitted == |cfg.nodes| && !r.statClosed then Some(r.(statClosed := true)) else None
    case StatRoot => if r.statClosed && !r.rootc then Some(r.(rootc := true)) else None
    // run(): the select loop
    case LoopRecv =>
      if r.loop == Selecting && !r.stattedNil && r.stattedc != [] then
        Some(r.(stattedc := r.stattedc[1..], total := Incr(r.total, NodeOf(cfg, r.stattedc[0])),
                loop := Forwarding(r.stattedc[0])))
      else None
    case LoopForward =>
      if r.loop.Forwarding? then Some(if v.check.closed then panic else r.(loop := Selecting)) else None
    case LoopStattedClosed =>
      if r.loop == Selecting && !r.stattedNil && r.stattedc == [] && r.statClosed then
        Some(if v.check.closed then panic else r.(stattedNil := true))
      else None
    case LoopRoot => if r.loop == Selecting && r.rootc && !r.gotRoot then Some(r.(gotRoot := true)) else None
    case LoopExit =>
      if r.loop == Selecting && r.dirEnd == Called then Some(r.(loop := Exited, dirEnd := Finished)) else None
    case LoopSkipped(g) =>
      if r.loop == Selecting && At(v, Check, g, SendSkipped) then
        Some(Goto(r.(skipped := Incr(r.skipped, NodeOf(cfg, v.check.frames[g]))), Check, g, Ret))
      else None
    case LoopUploaded(k, g) =>
      if r.loop == Selecting && At(v, k, g, SendUploaded) then
        Some(Goto(r.(uploaded := Incr(r.uploaded, NodeOf(cfg, v.At(k).frames[g]))), k, g, Ret))
      else None
    case _ => None
  }

  function PoolLocal(v: Sys<Pool>, a: Action): Option<Rest> {
    var r := v.r;
    match a
    case PoolInternal(_, _) => Some(r)
    case PoolCall(k, g, _, _) => Some(Goto(r, k, g, if k.Dir? then Wait([]) else Entry))
    case PoolReturn(k, g, _) => if At(v, k, g, Ret) then Some(SetPcs(r, k, Pcs(r, k) - {g})) else None
    case PoolSentinel(k) =>
      Some(match k
           case Check => r.(checkEnd := Called)
           case Upload => r.(uploadEnd := Called)
           case Dir => r.(dirEnd := Called))
    case _ => None
  }

  function FnLocal(cfg: Config, v: Sys<Pool>, a: Action): Option<Rest> {
    var r := v.r;
    var panic := r.(panicked := true);
    match a
    // fn of checkStatCache
    case CacheLookup(g, hit) =>
      if !At(v, Check, g, Entry) then None
      else if hit.None? then Some(Goto(r, Check, g, SendUpload))
      else if cfg.statCache && !NodeOf(cfg, v.check.frames[g]).isDir then Some(Goto(r, Check, g, Put(hit.value)))
      else None
    case ToUpload(g) =>
      if At(v, Check, g, SendUpload) then Some(if v.upload.closed then panic else Goto(r, Check, g, Ret)) else None
    case CloseUpload =>
      if r.checkEnd == Called then Some(if v.upload.closed then panic else r.(checkEnd := Finished)) else None
    // fn of upload
    case UploadNode(g, ref) =>
      if At(v, Upload, g, Entry) then
        Some(Goto(r, Upload, g, if NodeOf(cfg, v.upload.frames[g]).isDir then SendDir else Put(PutResult(ref, []))))
      else None
    case ToDir(g) =>
      if At(v, Upload, g, SendDir) then Some(if v.dir.closed then panic else Goto(r, Upload, g, Ret)) else None
    case CloseDir =>
      if r.uploadEnd == Called then Some(if v.dir.closed then panic else r.(uploadEnd := Finished)) else None
    // fn of dirUpload: directoryStaticSet waits for the children one by one
    case AwaitChild(g) =>
      if g in r.pcs.dir && r.pcs.dir[g].Wait? && g in v.dir.frames then
        var refs := r.pcs.dir[g].refs;
        var children := NodeOf(cfg, v.dir.frames[g]).children;
        if |refs| < |children| && children[|refs|] in r.results then
          Some(Goto(r, Dir, g, Wait(refs + [r.results[children[|refs|]].ref])))
        else None
      else None
    case UploadDir(g, ref) =>
      if g in r.pcs.dir && r.pcs.dir[g].Wait? && g in v.dir.frames &&
         |r.pcs.dir[g].refs| == |NodeOf(cfg, v.dir.frames[g]).children|
      then Some(Goto(r, Dir, g, Put(PutResult(ref, r.pcs.dir[g].refs))))
      else None
    // node.SetPutResult
    case SetResult(k, g) =>
      if g in Pcs(r, k) && Pcs(r, k)[g].Put? && g in v.At(k).frames then
        var n := v.At(k).frames[g];
        Some(if n in r.results then panic
             else Goto(r.(results := r.results[n := Pcs(r, k)[g].res]), k, g, if k.Check? then SendSkipped else SendUploaded))
      else None
    case _ => None
  }

  /** What the action does to the pool of stage k. */
  ghost function EventAt(v: Sys<Pool>, a: Action, k: Stage): Option<Event> {
    match a
    case PoolInternal(k', m) => if k == k' then Some(Internal(m)) else None
    case PoolCall(k', g, n, i) => if k == k' then Some(Call(g, n, i)) else None
    case PoolReturn(k', g, n) => if k == k' then Some(Return(g, n)) else None
    case PoolSentinel(k') => if k == k' then Some(Sentinel) else None
    case LoopForward => if k.Check? && v.r.loop.Forwarding? && !v.check.closed then Some(Send(v.r.loop.n)) else None
    case LoopStattedClosed => if k.Check? && !v.check.closed then Some(Close) else None
    case ToUpload(g) =>
      if k.Upload? && g in v.check.frames && !v.upload.closed then Some(Send(v.check.frames[g])) else None
    case CloseUpload => if k.Upload? && !v.upload.closed then Some(Close) else None
    case ToDir(g) => if k.Dir? && g in v.upload.frames && !v.dir.closed then Some(Send(v.upload.frames[g])) else None
    case CloseDir => if k.Dir? && !v.dir.closed then Some(Close) else None
    case _ => None
  }

  ghost predicate WorkerMove(w: Worker, e: Option<Event>, w': Worker) {
    match e case None => w' == w case Some(ev) => After(w, ev) == Some(w')
  }

  ghost predicate PoolMove(p: Pool, e: Option<Event>, p': Pool) {
    match e case None => p' == p case Some(ev) => PoolNext(p, ev, p')
  }

  ghost function View(s: Sys<Worker>): Sys<Pool> {
    Sys(s.r, Abs(s.check), Abs(s.upload), Abs(s.dir))
  }

  /** A step of the program: its pools are the pumps, workers and channels of NodeWorker. */
  ghost predicate Step(cfg: Config, s: Sys<Worker>, a: Action, s': Sys<Worker>) {
    && !s.r.panicked
    && Local(cfg, View(s), a) == Some(s'.r)
    && WorkerMove(s.check, EventAt(View(s), a, Check), s'.check)
    && WorkerMove(s.upload, EventAt(View(s), a, Upload), s'.upload)
    && WorkerMove(s.dir, EventAt(View(s), a, Dir), s'.dir)
  }

  /** The same step over bags of pending nodes. */
  ghost predicate PoolStep(cfg: Config, v: Sys<Pool>, a: Action, v': Sys<Pool>) {
    && !v.r.panicked
    && Local(cfg, v, a) == Some(v'.r)
    && PoolMove(v.check, EventAt(v, a, Check), v'.check)
    && PoolMove(v.upload, EventAt(v, a, Upload), v'.upload)
    && PoolMove(v.dir, EventAt(v, a, Dir), v'.dir)
  }

  function InitRest(): Rest {
    Rest(0, [], false, false, Selecting, false, false, Stats(0, 0), Stats(0, 0), Stats(0, 0),
         PcTable(map[], map[], map[]), NotCalled, NotCalled, NotCalled, map[], false)
  }

  ghost predicate WellFormed(cfg: Config) {
    && cfg.checkWorkers != 0 && cfg.uploadWorkers != 0 && cfg.dirWorkers != 0
    && ChildrenFirst(cfg.nodes)
  }

  /** statPath sends a directory only after everything under it. */
  ghost predicate ChildrenFirst(nodes: seq<FileNode>) {
    forall i, c :: 0 <= i < |nodes| && c in nodes[i].children ==> c < i
  }

  function Init(cfg: Config): Sys<Worker>
    requires cfg.checkWorkers != 0 && cfg.uploadWorkers != 0 && cfg.dirWorkers != 0
  {
    Sys(InitRest(), New(cfg.checkWorkers), New(cfg.uploadWorkers), New(cfg.dirWorkers))
  }

  ghost predicate WorkersInv(s: Sys<Worker>) {
    Inv(s.check) && Inv(s.upload) && Inv(s.dir)
  }

  lemma MoveRefines(w: Worker, e: Option<Event>, w': Worker)
    requires Inv(w) && WorkerMove(w, e, w')
    ensures Inv(w') && PoolMove(Abs(w), e, Abs(w'))
  {
    if e.Some? { Refines(w, e.value, w'); }
  }

  lemma StepRefines(cfg: Config, s: Sys<Worker>, a: Action, s': Sys<Worker>)
    requires WorkersInv(s) && Step(cfg, s, a, s')
    ensures WorkersInv(s') && PoolStep(cfg, View(s), a, View(s'))
  {
    MoveRefines(s.check, EventAt(View(s), a, Check), s'.check);
    MoveRefines(s.upload, EventAt(View(s), a, Upload), s'.upload);
    MoveRefines(s.dir, EventAt(View(s), a, Dir), s'.dir);
  }
}
