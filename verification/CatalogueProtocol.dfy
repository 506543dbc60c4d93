/** The catalogue cache of lib/artifact-catalogue.ts as a step machine over one cache scope.

    Many isolates run many `load` and `invalidate` calls at once against one KV store and one moving
    Git head. A remote call is two steps: `Serve` is the instant the remote side answers, `Resume` is
    the caller running on to its next `await`; anything may happen in between. A KV write that is
    reported as failed may still take effect, at once or at any later time.

    - A revision is its position in the history of the head.
    - A generation token is the ordinal of the write that stored it, 0 standing for "no token". The
      source draws tokens at random and only compares them, and none is visible before it is stored.
    - A publication id is the id of the one call that made it. */
module CatalogueProtocol {
  import opened Options
  import opened Chunking

  type Revision = nat
  type Token = nat
  type CallId = nat
  type IsolateId = nat
  type History = h: seq<nat> | h != [] witness [0]

  datatype Entry = Entry(id: string, artifact: string, fileSha: string)

  /** What the protocol takes from outside: the catalogue at a revision, `validateSnapshot` on its
      entries, the JSON size of an entry, the chunk limit and the freshness window. */
  datatype Config = Config(
    catalogue: Revision -> seq<Entry>,
    valid: seq<Entry> -> bool,
    enc: Entry -> nat,
    limit: nat,
    window: nat)

  datatype Snapshot = Snapshot(revision: Revision, refreshedAt: nat, entries: seq<Entry>)
  datatype Pointer = Pointer(revision: Revision, refreshedAt: nat, generation: Token, publication: CallId, count: nat)

  // ---- the shared side ----

  /** `heads[r]` is the time revision r became the head; `generations[k]` is the head at the instant
      token k + 1 was stored. Both only grow. */
  datatype Store = Store(
    heads: History,
    generations: seq<Revision>,
    pointer: Option<Pointer>,
    chunks: map<(Revision, nat), seq<Entry>>)

  datatype Write =
    | PutGeneration
    | PutPointer(p: Pointer)
    | DeletePointer
    | PutChunk(revision: Revision, index: nat, entries: seq<Entry>)

  datatype Request =
    | GetGeneration
    | GetPointer
    | GetChunk(revision: Revision, index: nat)
    | GetHead
    | LoadCatalogue(revision: Revision)
    | Perform(w: Write)

  /** `Failed` is a KV failure or a temporarily unavailable repository, `Denied` any other
      repository error. */
  datatype Reply =
    | GenerationIs(token: Token)
    | PointerIs(p: Option<Pointer>)
    | ChunkIs(chunk: Option<seq<Entry>>)
    | HeadIs(revision: Revision)
    | CatalogueIs(entries: seq<Entry>)
    | Written
    | Failed
    | Denied

  function Head(s: Store): Revision { |s.heads| - 1 }

  function CurrentToken(s: Store): Token { |s.generations| }

  function Apply(s: Store, w: Write): Store {
    match w
    case PutGeneration => s.(generations := s.generations + [Head(s)])
    case PutPointer(p) => s.(pointer := Some(p))
    case DeletePointer => s.(pointer := None)
    case PutChunk(revision, index, entries) => s.(chunks := s.chunks[(revision, index) := entries])
  }

  /** The answers a request may get. */
  predicate Answers(cfg: Config, s: Store, request: Request, reply: Reply) {
    match request
    case GetGeneration => reply == GenerationIs(CurrentToken(s)) || reply == Failed
    case GetPointer => reply == PointerIs(s.pointer) || reply == Failed
    case GetChunk(revision, index) =>
      reply == Failed ||
      reply == ChunkIs(if (revision, index) in s.chunks then Some(s.chunks[(revision, index)]) else None)
    case GetHead => reply == HeadIs(Head(s)) || reply == Failed || reply == Denied
    case LoadCatalogue(revision) => reply == CatalogueIs(cfg.catalogue(revision)) || reply == Failed || reply == Denied
    case Perform(_) => reply == Written || reply == Failed
  }

  // ---- one call of load or invalidate ----

  datatype Call = Call(force: bool, full: bool, now: nat, localGeneration: nat)
  datatype GenerationRead = GenerationRead(value: Token, failed: bool)
  datatype Reading = AtPointer | AtChunks(p: Pointer, got: map<nat, seq<Entry>>)
  datatype SnapshotRead = SnapshotRead(
    snapshot: Option<Snapshot>, generation: Token, publication: Option<CallId>, failed: bool, corrupt: bool)
  datatype Publication = Publication(call: Call, generation: GenerationRead, snapshot: Snapshot, degraded: bool)
  datatype PublishState = Published | Competing | Aborted | Degraded
  datatype CacheState = FreshCache | RefreshedCache | DegradedCache | StaleCache
  datatype LoadResult = Loaded(snapshot: Snapshot, state: CacheState, publish: Option<PublishState>) | Rejected
  datatype After = ReturnAborted | ReturnDegraded | Throw

  /** The `await` a call is suspended at, with the local variables alive there. */
  datatype Frame =
    | LoadGeneration(call: Call)
    | LoadSnapshot(call: Call, generation: GenerationRead, reading: Reading)
    | LoadHead(call: Call, generation: GenerationRead, cached: Option<Snapshot>, degraded: bool)
    | LoadRepository(
        call: Call, generation: GenerationRead, cached: Option<Snapshot>, degraded: bool, revision: Revision)
    | PublishChunks(pub: Publication, pending: set<nat>)
    | PublishGeneration(pub: Publication)
    | PublishPreCheck(pub: Publication)
    | PublishPointer(pub: Publication)
    | PublishPostCheck(pub: Publication)
    | RecoverSnapshot(pub: Publication, reading: Reading, pointerAttempted: bool)
    | CleanupGeneration(pub: Publication, after: After)
    | CleanupSnapshot(pub: Publication, reading: Reading, after: After)
    | CleanupDelete(pub: Publication, after: After)
    | LoadDone(call: Call, generation: GenerationRead, result: LoadResult)
    | InvalidateGeneration
    | InvalidateDelete
    | InvalidateDone(ok: bool)

  datatype Isolate = Isolate(localGeneration: nat, invalidated: bool)
  datatype Task = Task(isolate: IsolateId, frame: Frame, inbox: Option<(Request, Reply)>)
  datatype Resumed = Resumed(frame: Frame, isolate: Isolate, leftover: multiset<Write>)

  function ChunksOf(cfg: Config, entries: seq<Entry>): seq<seq<Entry>> {
    Groups(cfg.enc, cfg.limit, entries)
  }

  function PointerOf(cfg: Config, id: CallId, pub: Publication): Pointer {
    Pointer(pub.snapshot.revision, pub.snapshot.refreshedAt, pub.generation.value, id,
            |ChunksOf(cfg, pub.snapshot.entries)|)
  }

  function ChunkWrite(cfg: Config, pub: Publication, index: nat): Write
    requires index < |ChunksOf(cfg, pub.snapshot.entries)|
  {
    PutChunk(pub.snapshot.revision, index, ChunksOf(cfg, pub.snapshot.entries)[index])
  }

  predicate ReadingAsks(reading: Reading, request: Request) {
    match reading
    case AtPointer => request == GetPointer
    case AtChunks(p, got) =>
      request.GetChunk? && request.revision == p.revision && request.index < p.count && request.index !in got
  }

  /** The requests a suspended call has outstanding. `Promise.all` has several. */
  predicate Asks(cfg: Config, id: CallId, frame: Frame, request: Request) {
    match frame
    case LoadGeneration(_) => request == GetGeneration
    case LoadSnapshot(_, _, reading) => ReadingAsks(reading, request)
    case LoadHead(_, _, _, _) => request == GetHead
    case LoadRepository(_, _, _, _, revision) => request == LoadCatalogue(revision)
    case PublishChunks(pub, pending) =>
      request.Perform? && request.w.PutChunk? && request.w.index in pending &&
      request.w.index < |ChunksOf(cfg, pub.snapshot.entries)| &&
      request.w == ChunkWrite(cfg, pub, request.w.index)
    case PublishGeneration(_) => request == GetGeneration
    case PublishPreCheck(_) => request == GetHead
    case PublishPointer(pub) => request == Perform(PutPointer(PointerOf(cfg, id, pub)))
    case PublishPostCheck(_) => request == GetHead
    case RecoverSnapshot(_, reading, _) => ReadingAsks(reading, request)
    case CleanupGeneration(_, _) => request == Perform(PutGeneration)
    case CleanupSnapshot(_, reading, _) => ReadingAsks(reading, request)
    case CleanupDelete(_, _) => request == Perform(DeletePointer)
    case LoadDone(_, _, _) => false
    case InvalidateGeneration => request == Perform(PutGeneration)
    case InvalidateDelete => request == Perform(DeletePointer)
    case InvalidateDone(_) => false
  }

  // ---- readSnapshot ----

  datatype Progress = More(reading: Reading) | Finished(read: SnapshotRead)

  const FailedRead := SnapshotRead(None, 0, None, true, false)
  const EmptyRead := SnapshotRead(None, 0, None, false, false)
  const CorruptRead := SnapshotRead(None, 0, None, false, true)

  predicate AllRead(p: Pointer, got: map<nat, seq<Entry>>) {
    forall i: nat :: i < p.count ==> i in got
  }

  function Assemble(p: Pointer, got: map<nat, seq<Entry>>): Snapshot
    requires AllRead(p, got)
  {
    Snapshot(p.revision, p.refreshedAt, Flatten(seq(p.count, i requires 0 <= i < p.count => got[i])))
  }

  function ResumeReading(cfg: Config, reading: Reading, request: Request, reply: Reply): Progress {
    match reading
    case AtPointer =>
      if reply.PointerIs? then
        if reply.p.None? then Finished(EmptyRead) else More(AtChunks(reply.p.value, map[]))
      else
        Finished(FailedRead)
    case AtChunks(p, got) =>
      if reply.ChunkIs? && request.GetChunk? then
        if reply.chunk.None? then
          Finished(CorruptRead)
        else
          var got' := got[request.index := reply.chunk.value];
          if !AllRead(p, got') then
            More(AtChunks(p, got'))
          else
            var snapshot := Assemble(p, got');
            if cfg.valid(snapshot.entries) then
              Finished(SnapshotRead(Some(snapshot), p.generation, Some(p.publication), false, false))
            else
              Finished(CorruptRead)
      else
        Finished(FailedRead)
  }

  // ---- load ----

  function AfterSnapshot(
      cfg: Config, call: Call, generation: GenerationRead, read: SnapshotRead, isolate: Isolate): Frame
  {
    var cached := if isolate.invalidated || read.generation != generation.value then None else read.snapshot;
    var degraded := generation.failed || read.failed;
    if cached.Some? && !call.force && !degraded && call.now - cached.value.refreshedAt < cfg.window then
      LoadDone(call, generation, Loaded(cached.value, FreshCache, None))
    else
      LoadHead(call, generation, cached, degraded)
  }

  /** The catch block of `load`: a stale answer only for a temporarily unavailable repository. */
  function AfterFailure(call: Call, generation: GenerationRead, cached: Option<Snapshot>, temporary: bool): Frame {
    if cached.Some? && temporary then
      LoadDone(call, generation, Loaded(cached.value, StaleCache, None))
    else
      LoadDone(call, generation, Rejected)
  }

  function Indices(n: nat): (indices: set<nat>)
    ensures forall i: nat :: i in indices <==> i < n
  {
    if n == 0 then {} else Indices(n - 1) + {n - 1}
  }

  function StartPublish(cfg: Config, pub: Publication): Frame {
    PublishChunks(pub, Indices(|ChunksOf(cfg, pub.snapshot.entries)|))
  }

  function FinishLoad(pub: Publication, state: PublishState): Frame {
    LoadDone(pub.call, pub.generation,
      Loaded(pub.snapshot,
             if pub.degraded || state.Degraded? || state.Aborted? then DegradedCache else RefreshedCache,
             Some(state)))
  }

  function RunAfter(pub: Publication, after: After): Frame {
    match after
    case ReturnAborted => FinishLoad(pub, Aborted)
    case ReturnDegraded => FinishLoad(pub, Degraded)
    case Throw => LoadDone(pub.call, pub.generation, Rejected)
  }

  // ---- publish, recoverCachePublication, cleanupUnverifiedPublication ----

  /** The synchronous start of `cleanupUnverifiedPublication` and of `invalidate`. */
  function Dirty(isolate: Isolate): Isolate {
    Isolate(isolate.localGeneration + 1, true)
  }

  function AfterRecovery(pub: Publication, id: CallId, read: SnapshotRead, attempted: bool, isolate: Isolate): Resumed {
    if read.publication != Some(id) && read.snapshot.Some? && read.snapshot.value.revision == pub.snapshot.revision &&
       read.generation == pub.generation.value && read.snapshot.value.refreshedAt >= pub.snapshot.refreshedAt then
      Resumed(FinishLoad(pub, Competing), isolate, multiset{})
    else if attempted then
      Resumed(CleanupGeneration(pub, ReturnDegraded), Dirty(isolate), multiset{})
    else
      Resumed(FinishLoad(pub, Degraded), isolate, multiset{})
  }

  function AfterCleanupRead(pub: Publication, id: CallId, read: SnapshotRead, after: After): Frame {
    if read.publication != Some(id) && read.snapshot.Some? &&
       read.snapshot.value.refreshedAt > pub.snapshot.refreshedAt then
      RunAfter(pub, after)
    else
      CleanupDelete(pub, after)
  }

  /** The writes of a rejected `Promise.all` that are still in flight. */
  function InFlight(cfg: Config, pub: Publication, pending: set<nat>): multiset<Write> {
    multiset(set i: nat | i in pending && i < |ChunksOf(cfg, pub.snapshot.entries)| :: ChunkWrite(cfg, pub, i))
  }

  function AfterChunk(
      cfg: Config, pub: Publication, pending: set<nat>, request: Request, reply: Reply, isolate: Isolate): Resumed
  {
    if reply.Written? && request.Perform? && request.w.PutChunk? then
      var pending' := pending - {request.w.index};
      Resumed(if pending' == {} then PublishGeneration(pub) else PublishChunks(pub, pending'), isolate, multiset{})
    else
      Resumed(RecoverSnapshot(pub, AtPointer, false), isolate, InFlight(cfg, pub, pending))
  }

  function AfterPublishGeneration(pub: Publication, reply: Reply, isolate: Isolate): Frame {
    if !reply.GenerationIs? then
      FinishLoad(pub, Degraded)
    else if reply.token != pub.generation.value || isolate.localGeneration != pub.call.localGeneration then
      FinishLoad(pub, Aborted)
    else
      PublishPreCheck(pub)
  }

  function AfterPreCheck(pub: Publication, reply: Reply): Frame {
    match reply
    case HeadIs(revision) => if revision == pub.snapshot.revision then PublishPointer(pub) else FinishLoad(pub, Aborted)
    case Failed => FinishLoad(pub, Degraded)
    case _ => LoadDone(pub.call, pub.generation, Rejected)
  }

  function AfterPostCheck(pub: Publication, reply: Reply, isolate: Isolate): Resumed {
    match reply
    case HeadIs(revision) =>
      if revision == pub.snapshot.revision then
        Resumed(FinishLoad(pub, Published), isolate.(invalidated := false), multiset{})
      else
        Resumed(CleanupGeneration(pub, ReturnAborted), Dirty(isolate), multiset{})
    case Failed => Resumed(CleanupGeneration(pub, ReturnDegraded), Dirty(isolate), multiset{})
    case _ => Resumed(CleanupGeneration(pub, Throw), Dirty(isolate), multiset{})
  }

  /** The local code between one `await` and the next. */
  function Resume(cfg: Config, id: CallId, frame: Frame, request: Request, reply: Reply, isolate: Isolate): Resumed {
    match frame
    case LoadGeneration(call) =>
      var generation := if reply.GenerationIs? then GenerationRead(reply.token, false) else GenerationRead(0, true);
      Resumed(LoadSnapshot(call, generation, AtPointer), isolate, multiset{})
    case LoadSnapshot(call, generation, reading) =>
      (match ResumeReading(cfg, reading, request, reply)
       case More(reading') => Resumed(LoadSnapshot(call, generation, reading'), isolate, multiset{})
       case Finished(read) => Resumed(AfterSnapshot(cfg, call, generation, read, isolate), isolate, multiset{}))
    case LoadHead(call, generation, cached, degraded) =>
      if reply.HeadIs? then
        if cached.Some? && !call.full && reply.revision == cached.value.revision then
          var snapshot := cached.value.(refreshedAt := call.now);
          Resumed(StartPublish(cfg, Publication(call, generation, snapshot, degraded)), isolate, multiset{})
        else
          Resumed(LoadRepository(call, generation, cached, degraded, reply.revision), isolate, multiset{})
      else
        Resumed(AfterFailure(call, generation, cached, reply.Failed?), isolate, multiset{})
    case LoadRepository(call, generation, cached, degraded, revision) =>
      if reply.CatalogueIs? then
        if cfg.valid(reply.entries) then
          var snapshot := Snapshot(revision, call.now, reply.entries);
          Resumed(StartPublish(cfg, Publication(call, generation, snapshot, degraded)), isolate, multiset{})
        else
          Resumed(AfterFailure(call, generation, cached, false), isolate, multiset{})
      else
        Resumed(AfterFailure(call, generation, cached, reply.Failed?), isolate, multiset{})
    case PublishChunks(pub, pending) => AfterChunk(cfg, pub, pending, request, reply, isolate)
    case PublishGeneration(pub) => Resumed(AfterPublishGeneration(pub, reply, isolate), isolate, multiset{})
    case PublishPreCheck(pub) => Resumed(AfterPreCheck(pub, reply), isolate, multiset{})
    case PublishPointer(pub) =>
      var next := if reply.Written? then PublishPostCheck(pub) else RecoverSnapshot(pub, AtPointer, true);
      Resumed(next, isolate, multiset{})
    case PublishPostCheck(pub) => AfterPostCheck(pub, reply, isolate)
    case RecoverSnapshot(pub, reading, attempted) =>
      (match ResumeReading(cfg, reading, request, reply)
       case More(reading') => Resumed(RecoverSnapshot(pub, reading', attempted), isolate, multiset{})
       case Finished(read) => AfterRecovery(pub, id, read, attempted, isolate))
    case CleanupGeneration(pub, after) => Resumed(CleanupSnapshot(pub, AtPointer, after), isolate, multiset{})
    case CleanupSnapshot(pub, reading, after) =>
      (match ResumeReading(cfg, reading, request, reply)
       case More(reading') => Resumed(CleanupSnapshot(pub, reading', after), isolate, multiset{})
       case Finished(read) => Resumed(AfterCleanupRead(pub, id, read, after), isolate, multiset{}))
    case CleanupDelete(pub, after) => Resumed(RunAfter(pub, after), isolate, multiset{})
    case LoadDone(_, _, _) => Resumed(frame, isolate, multiset{})
    case InvalidateGeneration =>
      Resumed(if reply.Written? then InvalidateDelete else InvalidateDone(false), isolate, multiset{})
    case InvalidateDelete => Resumed(InvalidateDone(reply.Written?), isolate, multiset{})
    case InvalidateDone(_) => Resumed(frame, isolate, multiset{})
  }

  // ---- the whole system ----

  datatype State = State(
    clock: nat,
    store: Store,
    background: multiset<Write>,
    isolates: map<IsolateId, Isolate>,
    tasks: map<CallId, Task>)

  function IsolateOf(s: State, i: IsolateId): Isolate {
    if i in s.isolates then s.isolates[i] else Isolate(0, false)
  }

  datatype Step =
    | Tick(elapsed: nat)
    | MoveHead
    | StartLoad(id: CallId, isolate: IsolateId, force: bool, full: bool)
    | StartInvalidate(id: CallId, isolate: IsolateId)
    | Serve(id: CallId, request: Request, reply: Reply)
    | Continue(id: CallId)
    | LateWrite(w: Write)

  ghost predicate Init(s: State) {
    && s.store == Store([s.clock], [], None, map[])
    && s.background == multiset{}
    && s.isolates == map[]
    && s.tasks == map[]
  }

  ghost predicate Enabled(cfg: Config, s: State, step: Step) {
    match step
    case Tick(_) => true
    case MoveHead => true
    case StartLoad(id, _, _, _) => id !in s.tasks
    case StartInvalidate(id, _) => id !in s.tasks
    case Serve(id, request, reply) =>
      && id in s.tasks && s.tasks[id].inbox.None?
      && Asks(cfg, id, s.tasks[id].frame, request)
      && Answers(cfg, s.store, request, reply)
    case Continue(id) => id in s.tasks && s.tasks[id].inbox.Some?
    case LateWrite(w) => w in s.background
  }

  ghost function Served(s: State, request: Request, reply: Reply): State {
    if !request.Perform? then s
    else if reply.Written? then s.(store := Apply(s.store, request.w))
    else s.(background := s.background + multiset{request.w})
  }

  ghost function Take(cfg: Config, s: State, step: Step): State
    requires Enabled(cfg, s, step)
  {
    match step
    case Tick(elapsed) => s.(clock := s.clock + elapsed)
    case MoveHead => s.(store := s.store.(heads := s.store.heads + [s.clock]))
    case StartLoad(id, isolate, force, full) =>
      var call := Call(force, full, s.clock, IsolateOf(s, isolate).localGeneration);
      s.(tasks := s.tasks[id := Task(isolate, LoadGeneration(call), None)])
    case StartInvalidate(id, isolate) =>
      s.(tasks := s.tasks[id := Task(isolate, InvalidateGeneration, None)],
         isolates := s.isolates[isolate := Dirty(IsolateOf(s, isolate))])
    case Serve(id, request, reply) =>
      var served := Served(s, request, reply);
      served.(tasks := s.tasks[id := s.tasks[id].(inbox := Some((request, reply)))])
    case Continue(id) =>
      var task := s.tasks[id];
      var next := Resume(cfg, id, task.frame, task.inbox.value.0, task.inbox.value.1, IsolateOf(s, task.isolate));
      s.(tasks := s.tasks[id := Task(task.isolate, next.frame, None)],
         isolates := s.isolates[task.isolate := next.isolate],
         background := s.background + next.leftover)
    case LateWrite(w) =>
      s.(store := Apply(s.store, w), background := s.background - multiset{w})
  }

  ghost predicate Next(cfg: Config, s: State, s': State) {
    exists step :: Enabled(cfg, s, step) && s' == Take(cfg, s, step)
  }

  ghost predicate StepAt(cfg: Config, run: seq<State>, k: nat)
    requires k + 1 < |run|
  {
    Next(cfg, run[k], run[k + 1])
  }

  ghost predicate IsRun(cfg: Config, run: seq<State>) {
    && run != []
    && Init(run[0])
    && forall k: nat :: k < |run| - 1 ==> StepAt(cfg, run, k)
  }
}
