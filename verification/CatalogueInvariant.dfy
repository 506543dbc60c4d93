/** What every step of the catalogue protocol keeps. */
module CatalogueInvariant {
  import opened Options
  import opened Chunking
  import opened CatalogueProtocol

  /** Revision r was the head at some instant not before time t. */
  predicate HeadSince(s: State, r: Revision, t: nat) {
    && t <= s.clock
    && r < |s.store.heads|
    && (r + 1 < |s.store.heads| ==> t <= s.store.heads[r + 1])
  }

  /** The head at the instant a token was stored; no token constrains nothing. */
  function Floor(s: Store, token: Token): Revision
    requires token <= CurrentToken(s)
  {
    if token == 0 then 0 else s.generations[token - 1]
  }

  predicate TokenOk(s: State, token: Token, r: Revision) {
    token <= CurrentToken(s.store) && Floor(s.store, token) <= r
  }

  predicate HasChunk(s: State, r: Revision, i: nat) {
    (r, i) in s.store.chunks
  }

  ghost predicate HasChunks(cfg: Config, s: State, r: Revision) {
    forall i: nat :: i < |ChunksOf(cfg, cfg.catalogue(r))| ==> HasChunk(s, r, i)
  }

  predicate ChunkIsRight(cfg: Config, r: Revision, i: nat, entries: seq<Entry>) {
    i < |ChunksOf(cfg, cfg.catalogue(r))| && entries == ChunksOf(cfg, cfg.catalogue(r))[i]
  }

  predicate SnapshotOk(cfg: Config, s: State, snapshot: Snapshot) {
    && snapshot.entries == cfg.catalogue(snapshot.revision)
    && cfg.valid(snapshot.entries)
    && HeadSince(s, snapshot.revision, snapshot.refreshedAt)
  }

  ghost predicate PointerOk(cfg: Config, s: State, p: Pointer) {
    && p.count == |ChunksOf(cfg, cfg.catalogue(p.revision))|
    && cfg.valid(cfg.catalogue(p.revision))
    && HeadSince(s, p.revision, p.refreshedAt)
    && TokenOk(s, p.generation, p.revision)
    && HasChunks(cfg, s, p.revision)
  }

  ghost predicate WriteOk(cfg: Config, s: State, w: Write) {
    match w
    case PutPointer(p) => PointerOk(cfg, s, p)
    case PutChunk(r, i, entries) => ChunkIsRight(cfg, r, i, entries)
    case _ => true
  }

  ghost predicate ReadingOk(cfg: Config, s: State, reading: Reading) {
    reading.AtChunks? ==>
      && PointerOk(cfg, s, reading.p)
      && forall i :: i in reading.got ==> ChunkIsRight(cfg, reading.p.revision, i, reading.got[i])
  }

  predicate CachedOk(cfg: Config, s: State, generation: GenerationRead, cached: Option<Snapshot>) {
    cached.Some? ==> SnapshotOk(cfg, s, cached.value) && TokenOk(s, generation.value, cached.value.revision)
  }

  predicate PubOk(cfg: Config, s: State, pub: Publication) {
    && SnapshotOk(cfg, s, pub.snapshot)
    && TokenOk(s, pub.generation.value, pub.snapshot.revision)
    && pub.snapshot.refreshedAt == pub.call.now
  }

  predicate ResultOk(cfg: Config, s: State, call: Call, generation: GenerationRead, result: LoadResult) {
    result.Loaded? ==>
      && SnapshotOk(cfg, s, result.snapshot)
      && TokenOk(s, generation.value, result.snapshot.revision)
      && (result.state == FreshCache ==> call.now - result.snapshot.refreshedAt < cfg.window)
      && (result.state == RefreshedCache || result.state == DegradedCache ==> result.snapshot.refreshedAt == call.now)
  }

  ghost predicate FrameOk(cfg: Config, s: State, frame: Frame) {
    match frame
    case LoadGeneration(call) => call.now <= s.clock
    case LoadSnapshot(call, generation, reading) =>
      call.now <= s.clock && generation.value <= CurrentToken(s.store) && ReadingOk(cfg, s, reading)
    case LoadHead(call, generation, cached, _) =>
      call.now <= s.clock && generation.value <= CurrentToken(s.store) && CachedOk(cfg, s, generation, cached)
    case LoadRepository(call, generation, cached, _, revision) =>
      && CachedOk(cfg, s, generation, cached)
      && HeadSince(s, revision, call.now) && TokenOk(s, generation.value, revision)
    case PublishChunks(pub, pending) =>
      && PubOk(cfg, s, pub)
      && forall i: nat :: i < |ChunksOf(cfg, cfg.catalogue(pub.snapshot.revision))| && i !in pending
           ==> HasChunk(s, pub.snapshot.revision, i)
    case PublishGeneration(pub) => PubOk(cfg, s, pub) && HasChunks(cfg, s, pub.snapshot.revision)
    case PublishPreCheck(pub) => PubOk(cfg, s, pub) && HasChunks(cfg, s, pub.snapshot.revision)
    case PublishPointer(pub) => PubOk(cfg, s, pub) && HasChunks(cfg, s, pub.snapshot.revision)
    case PublishPostCheck(pub) => PubOk(cfg, s, pub)
    case RecoverSnapshot(pub, reading, _) => PubOk(cfg, s, pub) && ReadingOk(cfg, s, reading)
    case CleanupGeneration(pub, _) => PubOk(cfg, s, pub)
    case CleanupSnapshot(pub, reading, _) => PubOk(cfg, s, pub) && ReadingOk(cfg, s, reading)
    case CleanupDelete(pub, _) => PubOk(cfg, s, pub)
    case LoadDone(call, generation, result) => ResultOk(cfg, s, call, generation, result)
    case InvalidateGeneration => true
    case InvalidateDelete => true
    case InvalidateDone(_) => true
  }

  /** What a reply waiting to be read still says, however long it waits. */
  ghost predicate ReplyOk(cfg: Config, s: State, frame: Frame, request: Request, reply: Reply) {
    && (reply.GenerationIs? ==> reply.token <= CurrentToken(s.store))
    && (reply.PointerIs? && reply.p.Some? ==> PointerOk(cfg, s, reply.p.value))
    && (reply.ChunkIs? ==>
          && request.GetChunk? && reply.chunk.Some?
          && ChunkIsRight(cfg, request.revision, request.index, reply.chunk.value))
    && (reply.CatalogueIs? && frame.LoadRepository? ==> reply.entries == cfg.catalogue(frame.revision))
    && (reply.HeadIs? && frame.LoadHead? ==>
          HeadSince(s, reply.revision, frame.call.now) && TokenOk(s, frame.generation.value, reply.revision))
    && (reply.Written? && request.Perform? && request.w.PutChunk? ==> HasChunk(s, request.w.revision, request.w.index))
  }

  ghost predicate TaskOk(cfg: Config, s: State, id: CallId, task: Task) {
    && FrameOk(cfg, s, task.frame)
    && (task.inbox.Some? ==>
          && Asks(cfg, id, task.frame, task.inbox.value.0)
          && ReplyOk(cfg, s, task.frame, task.inbox.value.0, task.inbox.value.1))
  }

  predicate StoreOk(s: State) {
    && (forall i :: 0 <= i < |s.store.heads| ==> s.store.heads[i] <= s.clock)
    && (forall i :: 0 <= i < |s.store.generations| ==> s.store.generations[i] <= Head(s.store))
    && (forall i, j :: 0 <= i < j < |s.store.generations| ==> s.store.generations[i] <= s.store.generations[j])
  }

  ghost predicate Inv(cfg: Config, s: State) {
    && StoreOk(s)
    && (forall key :: key in s.store.chunks ==> ChunkIsRight(cfg, key.0, key.1, s.store.chunks[key]))
    && (s.store.pointer.Some? ==> PointerOk(cfg, s, s.store.pointer.value))
    && (forall w :: w in s.background ==> WriteOk(cfg, s, w))
    && (forall id :: id in s.tasks ==> TaskOk(cfg, s, id, s.tasks[id]))
  }

  // ---- facts that only accumulate ----

  /** One step moves the head at most once and stores at most one token, recording the head of that instant. */
  ghost predicate Later(s: State, s': State) {
    && (s'.store.heads == s.store.heads || s'.store.heads == s.store.heads + [s.clock])
    && (s'.store.heads == s.store.heads ==> s.clock <= s'.clock)
    && (s'.store.heads != s.store.heads ==> s.clock == s'.clock)
    && (s'.store.generations == s.store.generations || s'.store.generations == s.store.generations + [Head(s.store)])
    && (forall key :: key in s.store.chunks ==> key in s'.store.chunks)
  }

  lemma PointerPersists(cfg: Config, s: State, s': State, p: Pointer)
    requires Later(s, s') && PointerOk(cfg, s, p)
    ensures PointerOk(cfg, s', p)
  {
    forall i: nat | i < |ChunksOf(cfg, cfg.catalogue(p.revision))| ensures HasChunk(s', p.revision, i) {
      assert HasChunk(s, p.revision, i);
    }
  }

  lemma FramePersists(cfg: Config, s: State, s': State, frame: Frame)
    requires Later(s, s') && FrameOk(cfg, s, frame)
    ensures FrameOk(cfg, s', frame)
  {
    if frame.LoadSnapshot? || frame.RecoverSnapshot? || frame.CleanupSnapshot? {
      if frame.reading.AtChunks? {
        PointerPersists(cfg, s, s', frame.reading.p);
      }
    } else if frame.PublishChunks? || frame.PublishGeneration? || frame.PublishPreCheck? || frame.PublishPointer? {
      var r := frame.pub.snapshot.revision;
      assert forall i: nat :: HasChunk(s, r, i) ==> HasChunk(s', r, i);
    }
  }

  lemma TaskPersists(cfg: Config, s: State, s': State, id: CallId, task: Task)
    requires Later(s, s') && TaskOk(cfg, s, id, task)
    ensures TaskOk(cfg, s', id, task)
  {
    FramePersists(cfg, s, s', task.frame);
    if task.inbox.Some? && task.inbox.value.1.PointerIs? && task.inbox.value.1.p.Some? {
      PointerPersists(cfg, s, s', task.inbox.value.1.p.value);
    }
  }

  lemma WritePersists(cfg: Config, s: State, s': State, w: Write)
    requires Later(s, s') && WriteOk(cfg, s, w)
    ensures WriteOk(cfg, s', w)
  {
    if w.PutPointer? { PointerPersists(cfg, s, s', w.p); }
  }

  // ---- a write keeps the store right ----

  lemma ApplyLater(s: State, w: Write, s': State)
    requires s'.clock == s.clock && s'.store == Apply(s.store, w)
    ensures Later(s, s')
  {}

  lemma ApplyKeeps(cfg: Config, s: State, w: Write, s': State)
    requires Inv(cfg, s) && WriteOk(cfg, s, w)
    requires s'.clock == s.clock && s'.store == Apply(s.store, w)
    ensures StoreOk(s')
    ensures forall key :: key in s'.store.chunks ==> ChunkIsRight(cfg, key.0, key.1, s'.store.chunks[key])
    ensures s'.store.pointer.Some? ==> PointerOk(cfg, s', s'.store.pointer.value)
  {
    ApplyLater(s, w, s');
    if s'.store.pointer.Some? {
      PointerPersists(cfg, s, s', s'.store.pointer.value);
    }
  }

  // ---- the caller's local code ----

  lemma AssembleIsCatalogue(cfg: Config, p: Pointer, got: map<nat, seq<Entry>>)
    requires p.count == |ChunksOf(cfg, cfg.catalogue(p.revision))|
    requires AllRead(p, got)
    requires forall i :: i in got ==> ChunkIsRight(cfg, p.revision, i, got[i])
    ensures Assemble(p, got).entries == cfg.catalogue(p.revision)
  {
    assert seq(p.count, i requires 0 <= i < p.count => got[i]) == ChunksOf(cfg, cfg.catalogue(p.revision));
    GroupsLossless(cfg.enc, cfg.limit, cfg.catalogue(p.revision));
  }

  ghost predicate ReadOk(cfg: Config, s: State, read: SnapshotRead) {
    && !read.corrupt
    && (read.snapshot.Some? ==>
        SnapshotOk(cfg, s, read.snapshot.value) && TokenOk(s, read.generation, read.snapshot.value.revision))
  }

  lemma ReadingKeeps(cfg: Config, s: State, frame: Frame, reading: Reading, request: Request, reply: Reply)
    requires ReadingOk(cfg, s, reading) && ReadingAsks(reading, request)
    requires ReplyOk(cfg, s, frame, request, reply)
    ensures var next := ResumeReading(cfg, reading, request, reply);
      if next.More? then ReadingOk(cfg, s, next.reading) else ReadOk(cfg, s, next.read)
  {
    if reading.AtChunks? && reply.ChunkIs? {
      var got' := reading.got[request.index := reply.chunk.value];
      if AllRead(reading.p, got') {
        AssembleIsCatalogue(cfg, reading.p, got');
      }
    }
  }

  lemma ChunkWritesRight(cfg: Config, s: State, pub: Publication, pending: set<nat>)
    requires PubOk(cfg, s, pub)
    ensures forall w :: w in InFlight(cfg, pub, pending) ==> WriteOk(cfg, s, w)
  {}

  ghost predicate ResumedOk(cfg: Config, s: State, next: Resumed) {
    FrameOk(cfg, s, next.frame) && forall w :: w in next.leftover ==> WriteOk(cfg, s, w)
  }

  lemma ResumeLoadRead(
      cfg: Config, s: State, id: CallId, frame: Frame, request: Request, reply: Reply, isolate: Isolate)
    requires frame.LoadSnapshot?
    requires FrameOk(cfg, s, frame) && ReadingAsks(frame.reading, request) && ReplyOk(cfg, s, frame, request, reply)
    ensures ResumedOk(cfg, s, Resume(cfg, id, frame, request, reply, isolate))
  {
    ReadingKeeps(cfg, s, frame, frame.reading, request, reply);
  }

  lemma ResumeRecoverRead(
      cfg: Config, s: State, id: CallId, frame: Frame, request: Request, reply: Reply, isolate: Isolate)
    requires frame.RecoverSnapshot?
    requires FrameOk(cfg, s, frame) && ReadingAsks(frame.reading, request) && ReplyOk(cfg, s, frame, request, reply)
    ensures ResumedOk(cfg, s, Resume(cfg, id, frame, request, reply, isolate))
  {
    ReadingKeeps(cfg, s, frame, frame.reading, request, reply);
  }

  lemma ResumeCleanupRead(
      cfg: Config, s: State, id: CallId, frame: Frame, request: Request, reply: Reply, isolate: Isolate)
    requires frame.CleanupSnapshot?
    requires FrameOk(cfg, s, frame) && ReadingAsks(frame.reading, request) && ReplyOk(cfg, s, frame, request, reply)
    ensures ResumedOk(cfg, s, Resume(cfg, id, frame, request, reply, isolate))
  {
    ReadingKeeps(cfg, s, frame, frame.reading, request, reply);
  }

  lemma ResumeLoads(cfg: Config, s: State, id: CallId, frame: Frame, request: Request, reply: Reply, isolate: Isolate)
    requires frame.LoadGeneration? || frame.LoadHead? || frame.LoadRepository?
    requires FrameOk(cfg, s, frame) && ReplyOk(cfg, s, frame, request, reply)
    ensures ResumedOk(cfg, s, Resume(cfg, id, frame, request, reply, isolate))
  {}

  lemma ResumeChunk(cfg: Config, s: State, id: CallId, frame: Frame, request: Request, reply: Reply, isolate: Isolate)
    requires frame.PublishChunks?
    requires FrameOk(cfg, s, frame) && Asks(cfg, id, frame, request) && ReplyOk(cfg, s, frame, request, reply)
    ensures ResumedOk(cfg, s, Resume(cfg, id, frame, request, reply, isolate))
  {
    ChunkWritesRight(cfg, s, frame.pub, frame.pending);
    if reply.Written? {
      var r, pending' := frame.pub.snapshot.revision, frame.pending - {request.w.index};
      forall i: nat | i < |ChunksOf(cfg, cfg.catalogue(r))| && i !in pending' ensures HasChunk(s, r, i) {
        assert i !in frame.pending || i == request.w.index;
      }
    }
  }

  lemma ResumePublishes(
      cfg: Config, s: State, id: CallId, frame: Frame, request: Request, reply: Reply, isolate: Isolate)
    requires !frame.LoadSnapshot? && !frame.RecoverSnapshot? && !frame.CleanupSnapshot?
    requires !frame.LoadGeneration? && !frame.LoadHead? && !frame.LoadRepository? && !frame.PublishChunks?
    requires FrameOk(cfg, s, frame)
    ensures ResumedOk(cfg, s, Resume(cfg, id, frame, request, reply, isolate))
  {}

  lemma ResumeKeeps(cfg: Config, s: State, id: CallId, frame: Frame, request: Request, reply: Reply, isolate: Isolate)
    requires FrameOk(cfg, s, frame) && Asks(cfg, id, frame, request) && ReplyOk(cfg, s, frame, request, reply)
    ensures ResumedOk(cfg, s, Resume(cfg, id, frame, request, reply, isolate))
  {
    if frame.LoadSnapshot? {
      ResumeLoadRead(cfg, s, id, frame, request, reply, isolate);
    } else if frame.RecoverSnapshot? {
      ResumeRecoverRead(cfg, s, id, frame, request, reply, isolate);
    } else if frame.CleanupSnapshot? {
      ResumeCleanupRead(cfg, s, id, frame, request, reply, isolate);
    } else if frame.LoadGeneration? || frame.LoadHead? || frame.LoadRepository? {
      ResumeLoads(cfg, s, id, frame, request, reply, isolate);
    } else if frame.PublishChunks? {
      ResumeChunk(cfg, s, id, frame, request, reply, isolate);
    } else {
      ResumePublishes(cfg, s, id, frame, request, reply, isolate);
    }
  }

  // ---- a served request ----

  lemma ServedReplyOk(cfg: Config, s: State, s': State, frame: Frame, request: Request, reply: Reply)
    requires Inv(cfg, s) && FrameOk(cfg, s, frame)
    requires exists id :: Asks(cfg, id, frame, request)
    requires Answers(cfg, s.store, request, reply)
    requires Later(s, s')
    requires request.Perform? && reply.Written? ==> s'.store == Apply(s.store, request.w)
    ensures ReplyOk(cfg, s', frame, request, reply)
  {
    if reply.PointerIs? && reply.p.Some? {
      PointerPersists(cfg, s, s', reply.p.value);
    }
    if reply.ChunkIs? {
      assert ReadingAsks(frame.reading, request);
      assert HasChunk(s, frame.reading.p.revision, request.index);
    }
  }

  lemma AskedWriteOk(cfg: Config, s: State, id: CallId, frame: Frame, w: Write)
    requires FrameOk(cfg, s, frame) && Asks(cfg, id, frame, Perform(w))
    ensures WriteOk(cfg, s, w)
  {}

  lemma ServeStoreKeeps(cfg: Config, s: State, id: CallId, request: Request, reply: Reply, s': State)
    requires Inv(cfg, s)
    requires Enabled(cfg, s, Serve(id, request, reply)) && s' == Take(cfg, s, Serve(id, request, reply))
    ensures Later(s, s') && StoreOk(s')
    ensures forall key :: key in s'.store.chunks ==> ChunkIsRight(cfg, key.0, key.1, s'.store.chunks[key])
    ensures s'.store.pointer.Some? ==> PointerOk(cfg, s', s'.store.pointer.value)
    ensures forall w :: w in s'.background ==> WriteOk(cfg, s, w)
  {
    assert TaskOk(cfg, s, id, s.tasks[id]);
    if request.Perform? { AskedWriteOk(cfg, s, id, s.tasks[id].frame, request.w); }
    if request.Perform? && reply.Written? {
      ApplyKeeps(cfg, s, request.w, s');
      ApplyLater(s, request.w, s');
    } else if s.store.pointer.Some? {
      PointerPersists(cfg, s, s', s.store.pointer.value);
    }
  }

  lemma ServeKeeps(cfg: Config, s: State, id: CallId, request: Request, reply: Reply, s': State)
    requires Inv(cfg, s)
    requires Enabled(cfg, s, Serve(id, request, reply)) && s' == Take(cfg, s, Serve(id, request, reply))
    ensures Inv(cfg, s') && Later(s, s')
  {
    var frame := s.tasks[id].frame;
    assert TaskOk(cfg, s, id, s.tasks[id]);
    ServeStoreKeeps(cfg, s, id, request, reply, s');
    ServedReplyOk(cfg, s, s', frame, request, reply);
    FramePersists(cfg, s, s', frame);
    assert TaskOk(cfg, s', id, s'.tasks[id]);
    OthersKeep(cfg, s, s', id);
    forall w | w in s'.background ensures WriteOk(cfg, s', w) {
      WritePersists(cfg, s, s', w);
    }
  }

  lemma OthersKeep(cfg: Config, s: State, s': State, id: CallId)
    requires Inv(cfg, s) && Later(s, s')
    ensures forall other :: other in s.tasks && other != id ==> TaskOk(cfg, s', other, s.tasks[other])
  {
    forall other | other in s.tasks && other != id ensures TaskOk(cfg, s', other, s.tasks[other]) {
      TaskPersists(cfg, s, s', other, s.tasks[other]);
    }
  }

  lemma ContinueKeeps(cfg: Config, s: State, id: CallId, s': State)
    requires Inv(cfg, s)
    requires Enabled(cfg, s, Continue(id)) && s' == Take(cfg, s, Continue(id))
    ensures Inv(cfg, s') && Later(s, s')
  {
    var task := s.tasks[id];
    ResumeKeeps(cfg, s, id, task.frame, task.inbox.value.0, task.inbox.value.1, IsolateOf(s, task.isolate));
    assert Later(s, s');
    OthersKeep(cfg, s, s', id);
    FramePersists(cfg, s, s', s'.tasks[id].frame);
    if s.store.pointer.Some? { PointerPersists(cfg, s, s', s.store.pointer.value); }
    forall w | w in s'.background ensures WriteOk(cfg, s', w) {
      WritePersists(cfg, s, s', w);
    }
  }

  lemma LateWriteKeeps(cfg: Config, s: State, w: Write, s': State)
    requires Inv(cfg, s)
    requires Enabled(cfg, s, LateWrite(w)) && s' == Take(cfg, s, LateWrite(w))
    ensures Inv(cfg, s') && Later(s, s')
  {
    ApplyKeeps(cfg, s, w, s');
    ApplyLater(s, w, s');
    forall id | id in s'.tasks ensures TaskOk(cfg, s', id, s'.tasks[id]) {
      TaskPersists(cfg, s, s', id, s.tasks[id]);
    }
    forall v | v in s'.background ensures WriteOk(cfg, s', v) {
      assert v in s.background;
      WritePersists(cfg, s, s', v);
    }
  }

  lemma OutsideKeeps(cfg: Config, s: State, step: Step, s': State)
    requires Inv(cfg, s)
    requires step.Tick? || step.MoveHead? || step.StartLoad? || step.StartInvalidate?
    requires Enabled(cfg, s, step) && s' == Take(cfg, s, step)
    ensures Inv(cfg, s') && Later(s, s')
  {
    assert Later(s, s');
    if s.store.pointer.Some? { PointerPersists(cfg, s, s', s.store.pointer.value); }
    forall id | id in s'.tasks ensures TaskOk(cfg, s', id, s'.tasks[id]) {
      if id in s.tasks { TaskPersists(cfg, s, s', id, s.tasks[id]); }
    }
    forall w | w in s'.background ensures WriteOk(cfg, s', w) {
      WritePersists(cfg, s, s', w);
    }
  }

  lemma NextKeeps(cfg: Config, s: State, s': State)
    requires Inv(cfg, s) && Next(cfg, s, s')
    ensures Inv(cfg, s')
    ensures Later(s, s')
  {
    var step :| Enabled(cfg, s, step) && s' == Take(cfg, s, step);
    match step
    case Serve(id, request, reply) => ServeKeeps(cfg, s, id, request, reply, s');
    case Continue(id) => ContinueKeeps(cfg, s, id, s');
    case LateWrite(w) => LateWriteKeeps(cfg, s, w, s');
    case _ => OutsideKeeps(cfg, s, step, s');
  }

  lemma {:induction false} RunKeeps(cfg: Config, run: seq<State>, k: nat)
    requires IsRun(cfg, run) && k < |run|
    ensures Inv(cfg, run[k])
  {
    if k > 0 {
      RunKeeps(cfg, run, k - 1);
      assert StepAt(cfg, run, k - 1);
      NextKeeps(cfg, run[k - 1], run[k]);
    }
  }
}
