/** Where the results of the tree upload come from, over whole runs. */
module TreeUploadResults {
  import opened Options
  import opened NodeWorker
  import opened TreeUpload
  import opened TreeUploadSafety

  /** The call of stage k on goroutine g is about to give node n this result. */
  ghost predicate Making(v: Sys<Pool>, k: Stage, g: nat, n: nat, res: PutResult) {
    g in Pcs(v.r, k) && Pcs(v.r, k)[g] == Put(res) && g in v.At(k).frames && v.At(k).frames[g] == n
  }

  /** The step finds node n's result in the stat cache, or uploads it. */
  ghost predicate Makes(cfg: Config, v: Sys<Pool>, a: Action, n: nat, res: PutResult) {
    match a
    case CacheLookup(g, hit) => cfg.statCache && !NodeOf(cfg, n).isDir && g in v.check.frames && v.check.frames[g] == n && hit == Some(res)
    case UploadNode(g, ref) => !NodeOf(cfg, n).isDir && g in v.upload.frames && v.upload.frames[g] == n && res == PutResult(ref, [])
    case UploadDir(g, ref) => NodeOf(cfg, n).isDir && g in v.dir.frames && v.dir.frames[g] == n && res.ref == ref
    case _ => false
  }

  ghost predicate MakesOnly(cfg: Config, v: Sys<Pool>, a: Action, v': Sys<Pool>) {
    forall k, g, n, res :: Making(v', k, g, n, res) ==> Making(v, k, g, n, res) || Makes(cfg, v, a, n, res)
  }

  ghost predicate SetsOnly(v: Sys<Pool>, v': Sys<Pool>) {
    forall n :: n in v'.r.results ==>
      (n in v.r.results && v'.r.results[n] == v.r.results[n]) || exists k, g :: Making(v, k, g, n, v'.r.results[n])
  }

  ghost predicate SameFrames(v: Sys<Pool>, v': Sys<Pool>) {
    v'.check.frames == v.check.frames && v'.upload.frames == v.upload.frames && v'.dir.frames == v.dir.frames
  }

  lemma FrameStays(p: Pool, e: Option<Event>, p': Pool)
    requires PoolMove(p, e, p') && (e.Some? ==> !e.value.Call? && !e.value.Return?)
    ensures p'.frames == p.frames
  {
  }

  lemma NoCall(v: Sys<Pool>, a: Action, k: Stage)
    requires !a.PoolCall? && !a.PoolReturn?
    ensures EventAt(v, a, k).Some? ==> !EventAt(v, a, k).value.Call? && !EventAt(v, a, k).value.Return?
  {
  }

  lemma FramesStay(cfg: Config, v: Sys<Pool>, a: Action, v': Sys<Pool>)
    requires PoolStep(cfg, v, a, v') && !a.PoolCall? && !a.PoolReturn?
    ensures SameFrames(v, v')
  {
    NoCall(v, a, Check);
    NoCall(v, a, Upload);
    NoCall(v, a, Dir);
    FrameStays(v.check, EventAt(v, a, Check), v'.check);
    FrameStays(v.upload, EventAt(v, a, Upload), v'.upload);
    FrameStays(v.dir, EventAt(v, a, Dir), v'.dir);
  }

  /** No call moves but call g of stage k, which gets to pc. */
  lemma OneMoves(cfg: Config, v: Sys<Pool>, a: Action, v': Sys<Pool>, k: Stage, g: nat, pc: Pc)
    requires SameFrames(v, v') && v'.r.pcs == v.r.pcs.With(k, Pcs(v.r, k)[g := pc])
    requires pc.Put? && g in v.At(k).frames ==> Makes(cfg, v, a, v.At(k).frames[g], pc.res)
    ensures MakesOnly(cfg, v, a, v')
  {
    forall k' ensures v'.At(k').frames == v.At(k').frames && Pcs(v'.r, k') == if k' == k then Pcs(v.r, k)[g := pc] else Pcs(v.r, k') {}
  }

  lemma NoneMoves(cfg: Config, v: Sys<Pool>, a: Action, v': Sys<Pool>)
    requires SameFrames(v, v') && v'.r.pcs == v.r.pcs
    ensures MakesOnly(cfg, v, a, v')
  {
    forall k ensures v'.At(k).frames == v.At(k).frames && Pcs(v'.r, k) == Pcs(v.r, k) {}
  }

  lemma CheckMakes(cfg: Config, v: Sys<Pool>, a: Action, v': Sys<Pool>)
    requires SameFrames(v, v') && FnLocal(cfg, v, a) == Some(v'.r) && !v'.r.panicked && (a.CacheLookup? || a.ToUpload? || a.SetResult?)
    ensures MakesOnly(cfg, v, a, v')
  {
    match a
    case CacheLookup(g, hit) => OneMoves(cfg, v, a, v', Check, g, if hit.None? then SendUpload else Put(hit.value));
    case ToUpload(g) => OneMoves(cfg, v, a, v', Check, g, Ret);
    case SetResult(k, g) => OneMoves(cfg, v, a, v', k, g, if k.Check? then SendSkipped else SendUploaded);
  }

  lemma UploadMakes(cfg: Config, v: Sys<Pool>, a: Action, v': Sys<Pool>)
    requires SameFrames(v, v') && FnLocal(cfg, v, a) == Some(v'.r) && !v'.r.panicked && (a.UploadNode? || a.ToDir?)
    ensures MakesOnly(cfg, v, a, v')
  {
    match a
    case UploadNode(g, ref) =>
      OneMoves(cfg, v, a, v', Upload, g, if NodeOf(cfg, v.upload.frames[g]).isDir then SendDir else Put(PutResult(ref, [])));
    case ToDir(g) => OneMoves(cfg, v, a, v', Upload, g, Ret);
  }

  lemma DirMakes(cfg: Config, v: Sys<Pool>, st: seq<Status>, a: Action, v': Sys<Pool>)
    requires StageAt(cfg, v, st, Dir) && SameFrames(v, v') && FnLocal(cfg, v, a) == Some(v'.r) && (a.AwaitChild? || a.UploadDir?)
    ensures MakesOnly(cfg, v, a, v')
  {
    assert PcInv(cfg, v.r.results, v.r.pcs.dir[a.g], v.dir.frames[a.g], Dir);
    OneMoves(cfg, v, a, v', Dir, a.g, v'.r.pcs.dir[a.g]);
  }

  lemma LoopMakes(cfg: Config, v: Sys<Pool>, a: Action, v': Sys<Pool>)
    requires SameFrames(v, v') && LoopLocal(cfg, v, a) == Some(v'.r)
    ensures MakesOnly(cfg, v, a, v')
  {
    match a
    case LoopSkipped(g) => OneMoves(cfg, v, a, v', Check, g, Ret);
    case LoopUploaded(k, g) => OneMoves(cfg, v, a, v', k, g, Ret);
    case _ => NoneMoves(cfg, v, a, v');
  }

  /** The maps agree but at g. */
  ghost predicate AgreeBut<T>(m: map<nat, T>, m': map<nat, T>, g: nat) {
    forall h :: h != g && h in m' ==> h in m && m'[h] == m[h]
  }

  /** Nothing changes but for the call of stage k on goroutine g, which is not about to set a result. */
  lemma OthersSame(cfg: Config, v: Sys<Pool>, a: Action, v': Sys<Pool>, k: Stage, g: nat)
    requires forall k' :: k' != k ==> v'.At(k').frames == v.At(k').frames && Pcs(v'.r, k') == Pcs(v.r, k')
    requires AgreeBut(v.At(k).frames, v'.At(k).frames, g) && AgreeBut(Pcs(v.r, k), Pcs(v'.r, k), g)
    requires g in Pcs(v'.r, k) ==> !Pcs(v'.r, k)[g].Put?
    ensures MakesOnly(cfg, v, a, v')
  {
    forall k', g', n, res | Making(v', k', g', n, res) ensures Making(v, k', g', n, res) {}
  }

  lemma CallMakes(cfg: Config, v: Sys<Pool>, k: Stage, g: nat, n: nat, i: nat, v': Sys<Pool>)
    requires PoolStep(cfg, v, PoolCall(k, g, n, i), v')
    ensures MakesOnly(cfg, v, PoolCall(k, g, n, i), v')
  {
    CallIs(cfg, v, k, g, n, i, v');
    OthersSame(cfg, v, PoolCall(k, g, n, i), v', k, g);
  }

  lemma ReturnMakes(cfg: Config, v: Sys<Pool>, k: Stage, g: nat, n: nat, v': Sys<Pool>)
    requires PoolStep(cfg, v, PoolReturn(k, g, n), v')
    ensures MakesOnly(cfg, v, PoolReturn(k, g, n), v')
  {
    forall k' | k' != k ensures v'.At(k') == v.At(k') && Pcs(v'.r, k') == Pcs(v.r, k') {}
    assert PoolNext(v.At(k), Return(g, n), v'.At(k));
    OthersSame(cfg, v, PoolReturn(k, g, n), v', k, g);
  }

  lemma FnMakes(cfg: Config, v: Sys<Pool>, st: seq<Status>, a: Action, v': Sys<Pool>)
    requires StageAt(cfg, v, st, Dir) && SameFrames(v, v') && FnLocal(cfg, v, a) == Some(v'.r) && !v'.r.panicked && InFn(a)
    ensures MakesOnly(cfg, v, a, v')
  {
    match a
    case CacheLookup(_, _) => CheckMakes(cfg, v, a, v');
    case ToUpload(_) => CheckMakes(cfg, v, a, v');
    case SetResult(_, _) => CheckMakes(cfg, v, a, v');
    case UploadNode(_, _) => UploadMakes(cfg, v, a, v');
    case ToDir(_) => UploadMakes(cfg, v, a, v');
    case AwaitChild(_) => DirMakes(cfg, v, st, a, v');
    case UploadDir(_, _) => DirMakes(cfg, v, st, a, v');
    case CloseUpload => NoneMoves(cfg, v, a, v');
    case CloseDir => NoneMoves(cfg, v, a, v');
  }

  lemma PoolMakes(cfg: Config, v: Sys<Pool>, a: Action, v': Sys<Pool>)
    requires PoolStep(cfg, v, a, v') && InPool(a)
    ensures MakesOnly(cfg, v, a, v')
  {
    match a
    case PoolCall(k, g, n, i) => CallMakes(cfg, v, k, g, n, i, v');
    case PoolReturn(k, g, n) => ReturnMakes(cfg, v, k, g, n, v');
    case PoolInternal(_, _) =>
      FramesStay(cfg, v, a, v');
      NoneMoves(cfg, v, a, v');
    case PoolSentinel(_) =>
      FramesStay(cfg, v, a, v');
      NoneMoves(cfg, v, a, v');
  }

  /** Only looking into the stat cache and uploading make results. */
  lemma StepMakes(cfg: Config, v: Sys<Pool>, st: seq<Status>, a: Action, v': Sys<Pool>)
    requires StageAt(cfg, v, st, Dir) && PoolStep(cfg, v, a, v') && !v'.r.panicked
    ensures MakesOnly(cfg, v, a, v')
  {
    if InPool(a) {
      PoolMakes(cfg, v, a, v');
    } else {
      FramesStay(cfg, v, a, v');
      if InFn(a) { FnMakes(cfg, v, st, a, v'); } else { LoopMakes(cfg, v, a, v'); }
    }
  }

  lemma StepSets(cfg: Config, v: Sys<Pool>, a: Action, v': Sys<Pool>)
    requires PoolStep(cfg, v, a, v') && !v'.r.panicked
    ensures SetsOnly(v, v')
  {
    LocalSame(cfg, v, a, v'.r);
    if a.SetResult? { OneIsSet(cfg, v, a.k, a.g, v'.r); }
  }

  lemma OneIsSet(cfg: Config, v: Sys<Pool>, k: Stage, g: nat, r': Rest)
    requires FnLocal(cfg, v, SetResult(k, g)) == Some(r') && !r'.panicked
    ensures g in v.At(k).frames && g in Pcs(v.r, k) && Pcs(v.r, k)[g].Put?
    ensures Making(v, k, g, v.At(k).frames[g], Pcs(v.r, k)[g].res)
    ensures r'.results == v.r.results[v.At(k).frames[g] := Pcs(v.r, k)[g].res]
  {
  }

  /** One of the first i steps made this result for node n. */
  ghost predicate MadeBefore(cfg: Config, states: seq<Sys<Worker>>, actions: seq<Action>, i: nat, n: nat, res: PutResult) {
    exists j: nat :: j < i && j < |actions| && j < |states| && Makes(cfg, View(states[j]), actions[j], n, res)
  }

  /** All results that are set, or about to be, were made. */
  ghost predicate Origins(cfg: Config, states: seq<Sys<Worker>>, actions: seq<Action>, i: nat, v: Sys<Pool>) {
    var made :=
      && (forall k, g, n, res :: Making(v, k, g, n, res) ==> MadeBefore(cfg, states, actions, i, n, res))
      && (forall n :: n in v.r.results ==> MadeBefore(cfg, states, actions, i, n, v.r.results[n]));
    made
  }

  lemma OriginsMore(cfg: Config, states: seq<Sys<Worker>>, actions: seq<Action>, i: nat, v: Sys<Pool>, v': Sys<Pool>)
    requires i < |states| && i < |actions| && v == View(states[i]) && Origins(cfg, states, actions, i, v)
    requires MakesOnly(cfg, v, actions[i], v') && SetsOnly(v, v')
    ensures Origins(cfg, states, actions, i + 1, v')
  {
    forall n, res ensures MadeBefore(cfg, states, actions, i + 1, n, res) <==>
                          MadeBefore(cfg, states, actions, i, n, res) || Makes(cfg, v, actions[i], n, res) {}
  }

  lemma StepOrigins(cfg: Config, states: seq<Sys<Worker>>, actions: seq<Action>, i: nat)
    requires IsUpload(cfg, states, actions) && i < |actions|
    ensures MakesOnly(cfg, View(states[i]), actions[i], View(states[i + 1])) && SetsOnly(View(states[i]), View(states[i + 1]))
  {
    var st := RunInv(cfg, states, actions, i);
    NeverPanics(cfg, states, actions);
    var (v, v') := (View(states[i]), View(states[i + 1]));
    StepRefines(cfg, states[i], actions[i], states[i + 1]);
    assert StageAt(cfg, v, st, Dir);
    StepMakes(cfg, v, st, actions[i], v');
    StepSets(cfg, v, actions[i], v');
  }

  lemma NoOrigins(cfg: Config, states: seq<Sys<Worker>>, actions: seq<Action>, v: Sys<Pool>)
    requires v.r == InitRest()
    ensures Origins(cfg, states, actions, 0, v)
  {
  }

  lemma OriginsGoOn(cfg: Config, states: seq<Sys<Worker>>, actions: seq<Action>, i: nat)
    ensures IsUpload(cfg, states, actions) && i < |actions| && Origins(cfg, states, actions, i, View(states[i])) ==>
              Origins(cfg, states, actions, i + 1, View(states[i + 1]))
  {
    if IsUpload(cfg, states, actions) && i < |actions| && Origins(cfg, states, actions, i, View(states[i])) {
      StepOrigins(cfg, states, actions, i);
      OriginsMore(cfg, states, actions, i, View(states[i]), View(states[i + 1]));
    }
  }

  ghost predicate AllOrigins(cfg: Config, states: seq<Sys<Worker>>, actions: seq<Action>, n: nat) {
    forall i: nat :: i < n && i < |states| ==> Origins(cfg, states, actions, i, View(states[i]))
  }

  lemma AllOriginsMore(cfg: Config, states: seq<Sys<Worker>>, actions: seq<Action>, n: nat)
    ensures IsUpload(cfg, states, actions) && n > 0 && AllOrigins(cfg, states, actions, n) ==> AllOrigins(cfg, states, actions, n + 1)
  {
    if n > 0 { OriginsGoOn(cfg, states, actions, n - 1); }
  }

  lemma {:induction false} RunOrigins(cfg: Config, states: seq<Sys<Worker>>, actions: seq<Action>, n: nat)
    ensures IsUpload(cfg, states, actions) && n > 0 ==> AllOrigins(cfg, states, actions, n)
  {
    if n == 1 {
      if IsUpload(cfg, states, actions) { NoOrigins(cfg, states, actions, View(states[0])); }
    } else if n > 1 {
      RunOrigins(cfg, states, actions, n - 1);
      AllOriginsMore(cfg, states, actions, n - 1);
    }
  }

  /** Every result was found in the stat cache for a file, or is what uploading the node gave. */
  lemma ResultsAreMade(cfg: Config, states: seq<Sys<Worker>>, actions: seq<Action>, i: nat, n: nat)
    requires IsUpload(cfg, states, actions) && i <= |actions| && n in states[i].r.results
    ensures exists j: nat :: j < i && Makes(cfg, View(states[j]), actions[j], n, states[i].r.results[n])
  {
    RunOrigins(cfg, states, actions, i + 1);
    assert Origins(cfg, states, actions, i, View(states[i]));
    assert MadeBefore(cfg, states, actions, i, n, states[i].r.results[n]);
  }
}
