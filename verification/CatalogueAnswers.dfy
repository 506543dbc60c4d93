/** Why a call of the catalogue cache ended as it did: every answer of `load` and `invalidate` is tied to the replies
    that very call got, over whole runs and whatever the other calls do meanwhile. */
module CatalogueAnswers {
  import opened Options
  import opened Chunking
  import opened CatalogueProtocol
  import opened CatalogueInvariant
  import opened CatalogueTheorems

  /** What a call has gone through so far: the replies it got; whether its isolate was ever seen dirty, or with another
      local generation than the call started with; whether reading the snapshot failed; and what it found at the pointer
      when it looked again, to recover from a failed write or to take its own pointer back. */
  datatype Notes = Notes(
    log: set<(Request, Reply)>, dirty: bool, moved: bool, readFailed: bool, recovery: set<Reply>, recheck: set<Reply>)

  function CallOf(frame: Frame): Option<Call> {
    match frame
    case LoadGeneration(call) => Some(call)
    case LoadSnapshot(call, _, _) => Some(call)
    case LoadHead(call, _, _, _) => Some(call)
    case LoadRepository(call, _, _, _, _) => Some(call)
    case LoadDone(call, _, _) => Some(call)
    case InvalidateGeneration => None
    case InvalidateDelete => None
    case InvalidateDone(_) => None
    case _ => Some(frame.pub.call)
  }

  ghost function Observe(n: Notes, s: State, id: CallId): Notes {
    if id !in s.tasks then n
    else
      var task, isolate := s.tasks[id], IsolateOf(s, s.tasks[id].isolate);
      Notes(if task.inbox.Some? then n.log + {task.inbox.value} else n.log,
            n.dirty || isolate.invalidated,
            n.moved || (CallOf(task.frame).Some? &&
                        CallOf(task.frame).value.localGeneration != isolate.localGeneration),
            n.readFailed || (task.frame.LoadSnapshot? && task.inbox.Some? && task.inbox.value.1.Failed?),
            if task.frame.RecoverSnapshot? && GotPointer(task) then n.recovery + {task.inbox.value.1} else n.recovery,
            if task.frame.CleanupSnapshot? && GotPointer(task) then n.recheck + {task.inbox.value.1} else n.recheck)
  }

  predicate GotPointer(task: Task) { task.inbox.Some? && task.inbox.value.0.GetPointer? }

  const Nothing := Notes({}, false, false, false, {}, {})

  ghost function NotesAt(run: seq<State>, k: nat, id: CallId): Notes
    requires k < |run|
  {
    Observe(if k == 0 then Nothing else NotesAt(run, k - 1, id), run[k], id)
  }

  /** The log holds nothing but replies that the call got. */
  lemma {:induction false} LogIsHeard(run: seq<State>, k: nat, id: CallId, request: Request, reply: Reply)
    requires k < |run| && (request, reply) in NotesAt(run, k, id).log
    ensures exists m: nat :: m <= k && id in run[m].tasks && run[m].tasks[id].inbox == Some((request, reply))
  {
    if !(id in run[k].tasks && run[k].tasks[id].inbox == Some((request, reply))) {
      LogIsHeard(run, k - 1, id, request, reply);
    }
  }

  // ---- what may have been heard ----

  predicate Heard(n: Notes, request: Request, reply: Reply) { (request, reply) in n.log }

  predicate PointerHeard(n: Notes, p: Pointer) { Heard(n, GetPointer, PointerIs(Some(p))) }

  predicate AnyFailed(n: Notes) { exists e :: e in n.log && e.1 == Failed }

  predicate WriteFailed(n: Notes) { exists e :: e in n.log && e.0.Perform? && e.1 == Failed }

  predicate Asked(n: Notes, request: Request) { exists e :: e in n.log && e.0 == request }

  predicate NoDeleteTried(n: Notes) { !Asked(n, Perform(DeletePointer)) }

  /** A read of the cache failed. */
  predicate CacheReadFailed(n: Notes) {
    exists e :: e in n.log && (e.0.GetPointer? || e.0.GetChunk?) && e.1 == Failed
  }

  /** Something other than a write failed. */
  predicate QueryFailed(n: Notes) { exists e :: e in n.log && !e.0.Perform? && e.1 == Failed }

  predicate NoPointerTried(n: Notes) { forall e :: e in n.log ==> !(e.0.Perform? && e.0.w.PutPointer?) }

  /** GitHub was asked for the head or the catalogue and was temporarily unavailable. */
  predicate RepositoryFailed(n: Notes) {
    exists e :: e in n.log && (e.0.GetHead? || e.0.LoadCatalogue?) && e.1 == Failed
  }

  predicate RepositoryDenied(n: Notes) {
    exists e :: e in n.log && (e.0.GetHead? || e.0.LoadCatalogue?) && e.1 == Denied
  }

  predicate InvalidLoaded(cfg: Config, n: Notes) {
    exists e :: e in n.log && e.1.CatalogueIs? && !cfg.valid(e.1.entries)
  }

  predicate HeadMoved(n: Notes, revision: Revision) {
    exists e :: e in n.log && e.1.HeadIs? && e.1.revision != revision
  }

  predicate GenerationMoved(n: Notes, token: Token) {
    exists e :: e in n.log && e.1.GenerationIs? && e.1.token != token
  }

  predicate GenerationHeard(n: Notes, g: GenerationRead) {
    if g.failed then g.value == 0 && Heard(n, GetGeneration, Failed) else Heard(n, GetGeneration, GenerationIs(g.value))
  }

  /** A pointer of this generation, for this revision and time, was read. */
  ghost predicate SnapshotHeard(n: Notes, token: Token, snapshot: Snapshot) {
    exists p :: PointerHeard(n, p) && p.generation == token && p.revision == snapshot.revision &&
      p.refreshedAt == snapshot.refreshedAt
  }

  // ---- the reasons ----

  /** Why a load had no snapshot it could use. */
  ghost predicate WhyNoCache(n: Notes, g: GenerationRead) {
    n.dirty || n.readFailed || Heard(n, GetPointer, PointerIs(None)) ||
    exists p :: PointerHeard(n, p) && p.generation != g.value
  }

  /** Why a load did not answer from the cache. */
  ghost predicate WhyNotFresh(cfg: Config, call: Call, n: Notes, g: GenerationRead) {
    call.force || g.failed || WhyNoCache(n, g) ||
    exists p :: PointerHeard(n, p) && call.now - p.refreshedAt >= cfg.window
  }

  /** Where the content of a new snapshot came from: the repository, or, unless a full reload was asked for, a cached
      snapshot of the same revision. */
  ghost predicate SourceHeard(n: Notes, call: Call, g: GenerationRead, snapshot: Snapshot) {
    Heard(n, LoadCatalogue(snapshot.revision), CatalogueIs(snapshot.entries)) ||
    (!call.full && exists p :: PointerHeard(n, p) && p.generation == g.value && p.revision == snapshot.revision)
  }

  /** Somebody else's pointer, later than this time. */
  predicate IsNewer(reply: Reply, id: CallId, refreshedAt: nat) {
    && reply.PointerIs? && reply.p.Some? && reply.p.value.publication != id
    && reply.p.value.refreshedAt > refreshedAt
  }

  /** Somebody else's pointer for the same revision and generation, and no older. */
  predicate Competes(reply: Reply, id: CallId, g: GenerationRead, snapshot: Snapshot) {
    && reply.PointerIs? && reply.p.Some? && reply.p.value.publication != id
    && reply.p.value.revision == snapshot.revision && reply.p.value.generation == g.value
    && reply.p.value.refreshedAt >= snapshot.refreshedAt
  }

  /** Looking again, the call could not see that the pointer there is somebody else's newer one. */
  predicate NoNewerSeen(n: Notes, id: CallId, refreshedAt: nat) {
    CacheReadFailed(n) || exists reply :: reply in n.recheck && !IsNewer(reply, id, refreshedAt)
  }

  /** A pointer that may be visible without having been verified is taken back: a new generation is tried, and the
      pointer is deleted, unless somebody else's newer one was there, which is left alone. */
  predicate TakenBack(n: Notes, id: CallId, refreshedAt: nat) {
    && Asked(n, Perform(PutGeneration))
    && if NoDeleteTried(n) then exists reply :: reply in n.recheck && IsNewer(reply, id, refreshedAt)
       else NoNewerSeen(n, id, refreshedAt)
  }

  /** A query failed, or the pointer found after a failed write was not one that would do as well. */
  predicate NoCompetitor(n: Notes, id: CallId, g: GenerationRead, snapshot: Snapshot) {
    QueryFailed(n) || exists reply :: reply in n.recovery && !Competes(reply, id, g, snapshot)
  }

  ghost predicate WhyPublished(
      cfg: Config, n: Notes, id: CallId, g: GenerationRead, snapshot: Snapshot, publish: PublishState)
  {
    match publish
    case Published =>
      exists count ::
        Heard(n, Perform(PutPointer(Pointer(snapshot.revision, snapshot.refreshedAt, g.value, id, count))), Written)
    case Competing =>
      WriteFailed(n) && exists reply :: reply in n.recovery && Competes(reply, id, g, snapshot)
    case Aborted =>
      && (n.moved || GenerationMoved(n, g.value) || HeadMoved(n, snapshot.revision))
      && (NoPointerTried(n) || TakenBack(n, id, snapshot.refreshedAt))
    case Degraded =>
      && AnyFailed(n) && NoCompetitor(n, id, g, snapshot)
      && (NoPointerTried(n) || TakenBack(n, id, snapshot.refreshedAt))
  }

  /** The reason for an answer, in terms of the replies the call got. */
  ghost predicate Explained(cfg: Config, n: Notes, id: CallId, call: Call, g: GenerationRead, result: LoadResult) {
    && GenerationHeard(n, g)
    && match result
       case Rejected =>
         && WhyNotFresh(cfg, call, n, g)
         && (RepositoryDenied(n) || InvalidLoaded(cfg, n) || (RepositoryFailed(n) && WhyNoCache(n, g)))
         && (NoPointerTried(n) || TakenBack(n, id, call.now))
       case Loaded(snapshot, state, publish) =>
         match state
         case FreshCache =>
           && publish.None? && !call.force && !g.failed && !n.readFailed && NoPointerTried(n)
           && SnapshotHeard(n, g.value, snapshot) && call.now - snapshot.refreshedAt < cfg.window
         case StaleCache =>
           && publish.None? && RepositoryFailed(n) && NoPointerTried(n)
           && SnapshotHeard(n, g.value, snapshot) && WhyNotFresh(cfg, call, n, g)
         case _ =>
           && publish.Some? && WhyNotFresh(cfg, call, n, g)
           && snapshot.refreshedAt == call.now && Heard(n, GetHead, HeadIs(snapshot.revision))
           && SourceHeard(n, call, g, snapshot)
           && (state.DegradedCache? <==> g.failed || n.readFailed || publish.value.Degraded? || publish.value.Aborted?)
           && WhyPublished(cfg, n, id, g, snapshot, publish.value)
  }

  // ---- the story of a call, await by await ----

  predicate ReadingHeard(n: Notes, reading: Reading) { reading.AtChunks? ==> PointerHeard(n, reading.p) }

  ghost predicate PubHeard(cfg: Config, n: Notes, pub: Publication) {
    && GenerationHeard(n, pub.generation) && WhyNotFresh(cfg, pub.call, n, pub.generation)
    && pub.snapshot.refreshedAt == pub.call.now && Heard(n, GetHead, HeadIs(pub.snapshot.revision))
    && SourceHeard(n, pub.call, pub.generation, pub.snapshot)
    && (pub.degraded <==> pub.generation.failed || n.readFailed)
  }

  predicate OwnPointerHeard(cfg: Config, n: Notes, id: CallId, pub: Publication, reply: Reply) {
    Heard(n, Perform(PutPointer(PointerOf(cfg, id, pub))), reply)
  }

  predicate WhyCleanup(n: Notes, id: CallId, pub: Publication, after: After) {
    && n.dirty && n.moved
    && match after
       case ReturnAborted => HeadMoved(n, pub.snapshot.revision)
       case ReturnDegraded => AnyFailed(n) && NoCompetitor(n, id, pub.generation, pub.snapshot)
       case Throw => RepositoryDenied(n)
  }

  ghost predicate FrameStory(cfg: Config, n: Notes, id: CallId, frame: Frame) {
    match frame
    case LoadGeneration(_) => NoPointerTried(n) && !n.readFailed
    case LoadSnapshot(_, g, reading) => NoPointerTried(n) && GenerationHeard(n, g) && ReadingHeard(n, reading)
    case LoadHead(call, g, cached, degraded) =>
      && NoPointerTried(n) && GenerationHeard(n, g) && WhyNotFresh(cfg, call, n, g)
      && (if cached.Some? then SnapshotHeard(n, g.value, cached.value) else WhyNoCache(n, g))
      && (degraded <==> g.failed || n.readFailed)
    case LoadRepository(call, g, cached, degraded, revision) =>
      && NoPointerTried(n) && GenerationHeard(n, g) && WhyNotFresh(cfg, call, n, g)
      && (if cached.Some? then SnapshotHeard(n, g.value, cached.value) else WhyNoCache(n, g))
      && (degraded <==> g.failed || n.readFailed)
      && Heard(n, GetHead, HeadIs(revision))
    case PublishChunks(pub, _) => NoPointerTried(n) && PubHeard(cfg, n, pub)
    case PublishGeneration(pub) => NoPointerTried(n) && PubHeard(cfg, n, pub)
    case PublishPreCheck(pub) => NoPointerTried(n) && PubHeard(cfg, n, pub)
    case PublishPointer(pub) => PubHeard(cfg, n, pub)
    case PublishPostCheck(pub) => PubHeard(cfg, n, pub) && OwnPointerHeard(cfg, n, id, pub, Written)
    case RecoverSnapshot(pub, reading, attempted) =>
      && PubHeard(cfg, n, pub) && WriteFailed(n) && ReadingHeard(n, reading) && (!attempted ==> NoPointerTried(n))
      && (reading.AtChunks? ==> PointerIs(Some(reading.p)) in n.recovery)
    case CleanupGeneration(pub, after) => PubHeard(cfg, n, pub) && WhyCleanup(n, id, pub, after)
    case CleanupSnapshot(pub, reading, after) =>
      && PubHeard(cfg, n, pub) && WhyCleanup(n, id, pub, after) && ReadingHeard(n, reading)
      && Asked(n, Perform(PutGeneration)) && (reading.AtChunks? ==> PointerIs(Some(reading.p)) in n.recheck)
    case CleanupDelete(pub, after) =>
      && PubHeard(cfg, n, pub) && WhyCleanup(n, id, pub, after) && Asked(n, Perform(PutGeneration))
      && NoNewerSeen(n, id, pub.snapshot.refreshedAt)
    case LoadDone(call, g, result) => Explained(cfg, n, id, call, g, result)
    case InvalidateGeneration => n.dirty
    case InvalidateDelete => n.dirty && Heard(n, Perform(PutGeneration), Written)
    case InvalidateDone(ok) =>
      && n.dirty
      && (ok ==> Heard(n, Perform(PutGeneration), Written) && Heard(n, Perform(DeletePointer), Written))
      && (!ok ==> WriteFailed(n))
  }

  /** A reply of the kind its request gets. */
  predicate Fits(request: Request, reply: Reply) {
    match request
    case GetGeneration => reply.GenerationIs? || reply.Failed?
    case GetPointer => reply.PointerIs? || reply.Failed?
    case GetChunk(_, _) => reply.ChunkIs? || reply.Failed?
    case GetHead => reply.HeadIs? || reply.Failed? || reply.Denied?
    case LoadCatalogue(_) => reply.CatalogueIs? || reply.Failed? || reply.Denied?
    case Perform(_) => reply.Written? || reply.Failed?
  }

  predicate BeforeDelete(frame: Frame) { CallOf(frame).Some? && !frame.CleanupDelete? && !frame.LoadDone? }

  /** The last reply is in the notes. */
  predicate Noted(n: Notes, frame: Frame, request: Request, reply: Reply) {
    && (request, reply) in n.log && Fits(request, reply)
    && (frame.RecoverSnapshot? && request.GetPointer? ==> reply in n.recovery)
    && (frame.CleanupSnapshot? && request.GetPointer? ==> reply in n.recheck)
  }

  /** A predicate on the notes and the frame holds, and the notes are up to date with the state. */
  ghost predicate StoryOf(P: (Notes, Frame) -> bool, n: Notes, s: State, id: CallId) {
    id in s.tasks ==>
      var task, isolate := s.tasks[id], IsolateOf(s, s.tasks[id].isolate);
      && P(n, task.frame)
      && (isolate.invalidated ==> n.dirty)
      && (CallOf(task.frame).Some? ==>
            && CallOf(task.frame).value.localGeneration <= isolate.localGeneration
            && (CallOf(task.frame).value.localGeneration != isolate.localGeneration ==> n.moved))
      && (BeforeDelete(task.frame) ==> NoDeleteTried(n))
      && (task.inbox.Some? ==> Noted(n, task.frame, task.inbox.value.0, task.inbox.value.1))
      && (task.frame.LoadSnapshot? ==> (n.readFailed <==> task.inbox.Some? && task.inbox.value.1.Failed?))
  }

  ghost function FrameStories(cfg: Config, id: CallId): (Notes, Frame) -> bool {
    (n, frame) => FrameStory(cfg, n, id, frame)
  }

  ghost predicate Story(cfg: Config, n: Notes, s: State, id: CallId) {
    StoryOf(FrameStories(cfg, id), n, s, id)
  }

  /** Nothing is forgotten. */
  lemma StoryGrows(cfg: Config, n: Notes, n': Notes, id: CallId, frame: Frame)
    requires FrameStory(cfg, n, id, frame)
    requires n.log <= n'.log && (n.dirty ==> n'.dirty) && (n.moved ==> n'.moved)
    requires n.recovery <= n'.recovery && n.recheck <= n'.recheck
    requires frame.LoadDone? ==> n'.log == n.log
    requires n'.readFailed == n.readFailed || frame.LoadSnapshot?
    requires frame.PublishPointer? || (NoPointerTried(n) ==> NoPointerTried(n'))
    ensures FrameStory(cfg, n', id, frame)
  {}

  /** What the call knows when it runs on. */
  ghost predicate Ready(
      cfg: Config, n: Notes, id: CallId, frame: Frame, request: Request, reply: Reply, isolate: Isolate)
  {
    && FrameStory(cfg, n, id, frame)
    && Noted(n, frame, request, reply) && Asks(cfg, id, frame, request) && (BeforeDelete(frame) ==> NoDeleteTried(n))
    && (isolate.invalidated ==> n.dirty)
    && (CallOf(frame).Some? ==>
          && CallOf(frame).value.localGeneration <= isolate.localGeneration
          && (CallOf(frame).value.localGeneration != isolate.localGeneration ==> n.moved))
    && (frame.LoadSnapshot? ==> (n.readFailed <==> reply.Failed?))
  }

  ghost predicate Resumes(
      cfg: Config, n: Notes, id: CallId, frame: Frame, request: Request, reply: Reply, isolate: Isolate)
  {
    ResumedStory(cfg, n, id, isolate, Resume(cfg, id, frame, request, reply, isolate))
  }

  lemma SameCall(cfg: Config, id: CallId, frame: Frame, request: Request, reply: Reply, isolate: Isolate)
    ensures CallOf(Resume(cfg, id, frame, request, reply, isolate).frame) == CallOf(frame)
  {}

  /** The call has run on: its isolate may have been dirtied or, by a verified publication, cleaned. */
  ghost predicate ResumedStory(cfg: Config, n: Notes, id: CallId, isolate: Isolate, next: Resumed) {
    if next.isolate == Dirty(isolate) then FrameStory(cfg, Dirtied(n), id, next.frame)
    else
      && FrameStory(cfg, n, id, next.frame)
      && (next.isolate == isolate || next.isolate == isolate.(invalidated := false))
  }

  function Dirtied(n: Notes): Notes { n.(dirty := true, moved := true) }

  /** The pointer a snapshot read found, or why it found none. */
  ghost predicate Found(n: Notes, replies: set<Reply>, read: SnapshotRead) {
    if read.snapshot.Some? then
      exists p :: PointerIs(Some(p)) in replies && p.generation == read.generation &&
        Some(p.publication) == read.publication && p.revision == read.snapshot.value.revision &&
        p.refreshedAt == read.snapshot.value.refreshedAt
    else if read.failed then CacheReadFailed(n) else PointerIs(None) in replies
  }

  lemma ReadingFound(
      cfg: Config, n: Notes, replies: set<Reply>, reading: Reading, request: Request, reply: Reply)
    requires ReadingAsks(reading, request) && (request, reply) in n.log && Fits(request, reply)
    requires reading.AtChunks? ==> PointerIs(Some(reading.p)) in replies
    requires request.GetPointer? ==> reply in replies
    requires NotCorrupt(cfg, reading, request, reply)
    ensures
      match ResumeReading(cfg, reading, request, reply)
      case More(reading') => reading'.AtChunks? ==> PointerIs(Some(reading'.p)) in replies
      case Finished(read) => Found(n, replies, read)
  {}

  /** What a snapshot read that is over has to show for it. */
  ghost predicate ReadHeard(n: Notes, read: SnapshotRead) {
    if read.snapshot.Some? then
      && !read.failed
      && exists p :: PointerHeard(n, p) && p.generation == read.generation && Some(p.publication) == read.publication &&
           p.revision == read.snapshot.value.revision && p.refreshedAt == read.snapshot.value.refreshedAt
    else read.failed || Heard(n, GetPointer, PointerIs(None))
  }

  lemma ReadingStory(cfg: Config, n: Notes, reading: Reading, request: Request, reply: Reply)
    requires ReadingHeard(n, reading) && ReadingAsks(reading, request)
    requires (request, reply) in n.log && Fits(request, reply)
    requires ResumeReading(cfg, reading, request, reply).Finished? ==>
      !ResumeReading(cfg, reading, request, reply).read.corrupt
    ensures
      match ResumeReading(cfg, reading, request, reply)
      case More(reading') => ReadingHeard(n, reading') && !reply.Failed?
      case Finished(read) => ReadHeard(n, read) && (read.failed <==> reply.Failed?)
  {}

  predicate NotCorrupt(cfg: Config, reading: Reading, request: Request, reply: Reply) {
    var next := ResumeReading(cfg, reading, request, reply);
    next.Finished? ==> !next.read.corrupt
  }

  lemma SnapshotStory(
      cfg: Config, n: Notes, id: CallId, call: Call, g: GenerationRead, read: SnapshotRead, isolate: Isolate)
    requires NoPointerTried(n) && GenerationHeard(n, g) && ReadHeard(n, read) && (n.readFailed <==> read.failed)
    requires isolate.invalidated ==> n.dirty
    ensures FrameStory(cfg, n, id, AfterSnapshot(cfg, call, g, read, isolate))
  {
    if read.snapshot.Some? {
      var p :| PointerHeard(n, p) && p.generation == read.generation &&
        p.revision == read.snapshot.value.revision && p.refreshedAt == read.snapshot.value.refreshedAt;
      assert p.generation == g.value ==> SnapshotHeard(n, g.value, read.snapshot.value);
    }
  }

  lemma PubGrows(cfg: Config, n: Notes, pub: Publication)
    requires PubHeard(cfg, n, pub)
    ensures PubHeard(cfg, Dirtied(n), pub)
  {}

  lemma FinishStory(cfg: Config, n: Notes, id: CallId, pub: Publication, state: PublishState)
    requires PubHeard(cfg, n, pub) && WhyPublished(cfg, n, id, pub.generation, pub.snapshot, state)
    ensures FrameStory(cfg, n, id, FinishLoad(pub, state))
  {}

  lemma AfterStory(cfg: Config, n: Notes, id: CallId, pub: Publication, after: After)
    requires PubHeard(cfg, n, pub) && WhyCleanup(n, id, pub, after) && TakenBack(n, id, pub.snapshot.refreshedAt)
    ensures FrameStory(cfg, n, id, RunAfter(pub, after))
  {
    match after
    case ReturnAborted => FinishStory(cfg, n, id, pub, Aborted);
    case ReturnDegraded => FinishStory(cfg, n, id, pub, Degraded);
    case Throw =>
  }

  lemma PostStory(cfg: Config, n: Notes, id: CallId, pub: Publication, reply: Reply, isolate: Isolate)
    requires PubHeard(cfg, n, pub) && OwnPointerHeard(cfg, n, id, pub, Written)
    requires Heard(n, GetHead, reply) && Fits(GetHead, reply)
    ensures ResumedStory(cfg, n, id, isolate, AfterPostCheck(pub, reply, isolate))
  {
    PubGrows(cfg, n, pub);
    if reply.HeadIs? && reply.revision == pub.snapshot.revision {
      FinishStory(cfg, n, id, pub, Published);
    }
  }

  predicate IsCompetitor(read: SnapshotRead, id: CallId, pub: Publication) {
    && read.snapshot.Some? && read.publication != Some(id)
    && read.snapshot.value.revision == pub.snapshot.revision && read.generation == pub.generation.value
    && read.snapshot.value.refreshedAt >= pub.snapshot.refreshedAt
  }

  lemma RecoveryFound(n: Notes, id: CallId, pub: Publication, read: SnapshotRead)
    requires Found(n, n.recovery, read)
    ensures
      if IsCompetitor(read, id, pub) then
        exists reply :: reply in n.recovery && Competes(reply, id, pub.generation, pub.snapshot)
      else NoCompetitor(n, id, pub.generation, pub.snapshot)
  {
    if read.snapshot.Some? {
      var p :| PointerIs(Some(p)) in n.recovery && p.generation == read.generation &&
        Some(p.publication) == read.publication && p.revision == read.snapshot.value.revision &&
        p.refreshedAt == read.snapshot.value.refreshedAt;
      assert Competes(PointerIs(Some(p)), id, pub.generation, pub.snapshot) <==> IsCompetitor(read, id, pub);
    } else if !read.failed {
      assert PointerIs(None) in n.recovery && !Competes(PointerIs(None), id, pub.generation, pub.snapshot);
    }
  }

  lemma RecoveryStory(
      cfg: Config, n: Notes, id: CallId, pub: Publication, read: SnapshotRead, attempted: bool, isolate: Isolate)
    requires PubHeard(cfg, n, pub) && WriteFailed(n) && (!attempted ==> NoPointerTried(n))
    requires Found(n, n.recovery, read)
    ensures ResumedStory(cfg, n, id, isolate, AfterRecovery(pub, id, read, attempted, isolate))
  {
    RecoveryFound(n, id, pub, read);
    var next := AfterRecovery(pub, id, read, attempted, isolate);
    if next.frame == FinishLoad(pub, Competing) {
      FinishStory(cfg, n, id, pub, Competing);
    } else if attempted {
      PubGrows(cfg, n, pub);
    } else {
      FinishStory(cfg, n, id, pub, Degraded);
    }
  }

  lemma CleanedStory(cfg: Config, n: Notes, id: CallId, pub: Publication, read: SnapshotRead, after: After)
    requires PubHeard(cfg, n, pub) && WhyCleanup(n, id, pub, after) && Found(n, n.recheck, read)
    requires Asked(n, Perform(PutGeneration)) && NoDeleteTried(n)
    ensures FrameStory(cfg, n, id, AfterCleanupRead(pub, id, read, after))
  {
    RecheckFound(n, id, pub.snapshot.refreshedAt, read);
    if AfterCleanupRead(pub, id, read, after) == RunAfter(pub, after) { AfterStory(cfg, n, id, pub, after); }
  }

  lemma RecheckFound(n: Notes, id: CallId, refreshedAt: nat, read: SnapshotRead)
    requires Found(n, n.recheck, read)
    ensures
      if read.snapshot.Some? && read.publication != Some(id) && read.snapshot.value.refreshedAt > refreshedAt then
        exists reply :: reply in n.recheck && IsNewer(reply, id, refreshedAt)
      else NoNewerSeen(n, id, refreshedAt)
  {
    if read.snapshot.Some? {
      var p :| PointerIs(Some(p)) in n.recheck && Some(p.publication) == read.publication &&
        p.refreshedAt == read.snapshot.value.refreshedAt;
      assert IsNewer(PointerIs(Some(p)), id, refreshedAt) <==>
        p.publication != id && p.refreshedAt > refreshedAt;
    } else if !read.failed {
      assert PointerIs(None) in n.recheck && !IsNewer(PointerIs(None), id, refreshedAt);
    }
  }

  // The same for each `await`, with what the call runs on to spelled out.

  lemma ReadStory(
      cfg: Config, n: Notes, id: CallId, call: Call, g: GenerationRead, reading: Reading,
      request: Request, reply: Reply, isolate: Isolate, next: Resumed)
    requires NoPointerTried(n) && GenerationHeard(n, g)
    requires (n.readFailed <==> reply.Failed?) && (isolate.invalidated ==> n.dirty)
    requires ReadingHeard(n, reading) && ReadingAsks(reading, request)
    requires (request, reply) in n.log && Fits(request, reply) && NotCorrupt(cfg, reading, request, reply)
    requires next.isolate == isolate && next.frame ==
      match ResumeReading(cfg, reading, request, reply)
      case More(reading') => LoadSnapshot(call, g, reading')
      case Finished(read) => AfterSnapshot(cfg, call, g, read, isolate)
    ensures ResumedStory(cfg, n, id, isolate, next)
  {
    ReadingStory(cfg, n, reading, request, reply);
    var progress := ResumeReading(cfg, reading, request, reply);
    if progress.Finished? { SnapshotStory(cfg, n, id, call, g, progress.read, isolate); }
  }

  lemma StartStoryOf(cfg: Config, n: Notes, id: CallId, pub: Publication)
    requires NoPointerTried(n) && PubHeard(cfg, n, pub)
    ensures FrameStory(cfg, n, id, StartPublish(cfg, pub))
  {}

  lemma FailureStory(
      cfg: Config, n: Notes, id: CallId, call: Call, g: GenerationRead, cached: Option<Snapshot>, temporary: bool)
    requires NoPointerTried(n) && GenerationHeard(n, g) && WhyNotFresh(cfg, call, n, g)
    requires if cached.Some? then SnapshotHeard(n, g.value, cached.value) else WhyNoCache(n, g)
    requires if temporary then RepositoryFailed(n) else RepositoryDenied(n) || InvalidLoaded(cfg, n)
    ensures FrameStory(cfg, n, id, AfterFailure(call, g, cached, temporary))
  {}

  lemma HeadStory(
      cfg: Config, n: Notes, id: CallId, call: Call, g: GenerationRead, cached: Option<Snapshot>, degraded: bool,
      reply: Reply, isolate: Isolate, next: Resumed)
    requires NoPointerTried(n) && GenerationHeard(n, g) && WhyNotFresh(cfg, call, n, g)
    requires if cached.Some? then SnapshotHeard(n, g.value, cached.value) else WhyNoCache(n, g)
    requires degraded <==> g.failed || n.readFailed
    requires Heard(n, GetHead, reply) && Fits(GetHead, reply)
    requires next.isolate == isolate && next.frame ==
      if !reply.HeadIs? then AfterFailure(call, g, cached, reply.Failed?)
      else if cached.Some? && !call.full && reply.revision == cached.value.revision then
        StartPublish(cfg, Publication(call, g, cached.value.(refreshedAt := call.now), degraded))
      else LoadRepository(call, g, cached, degraded, reply.revision)
    ensures ResumedStory(cfg, n, id, isolate, next)
  {
    if !reply.HeadIs? {
      assert (GetHead, reply) in n.log;
      FailureStory(cfg, n, id, call, g, cached, reply.Failed?);
    } else if cached.Some? && !call.full && reply.revision == cached.value.revision {
      var p :| PointerHeard(n, p) && p.generation == g.value && p.revision == cached.value.revision;
      StartStoryOf(cfg, n, id, Publication(call, g, cached.value.(refreshedAt := call.now), degraded));
    }
  }

  lemma RepositoryStory(
      cfg: Config, n: Notes, id: CallId, call: Call, g: GenerationRead, cached: Option<Snapshot>, degraded: bool,
      r: Revision, reply: Reply, isolate: Isolate, next: Resumed)
    requires NoPointerTried(n) && GenerationHeard(n, g) && WhyNotFresh(cfg, call, n, g)
    requires if cached.Some? then SnapshotHeard(n, g.value, cached.value) else WhyNoCache(n, g)
    requires degraded <==> g.failed || n.readFailed
    requires Heard(n, GetHead, HeadIs(r)) && Heard(n, LoadCatalogue(r), reply) && Fits(LoadCatalogue(r), reply)
    requires next.isolate == isolate && next.frame ==
      if reply.CatalogueIs? && cfg.valid(reply.entries) then
        StartPublish(cfg, Publication(call, g, Snapshot(r, call.now, reply.entries), degraded))
      else AfterFailure(call, g, cached, reply.Failed?)
    ensures ResumedStory(cfg, n, id, isolate, next)
  {
    if reply.CatalogueIs? && cfg.valid(reply.entries) {
      StartStoryOf(cfg, n, id, Publication(call, g, Snapshot(r, call.now, reply.entries), degraded));
    } else {
      assert (LoadCatalogue(r), reply) in n.log;
      FailureStory(cfg, n, id, call, g, cached, reply.Failed?);
    }
  }

  lemma ChunkStory(
      cfg: Config, n: Notes, id: CallId, pub: Publication, pending: set<nat>,
      request: Request, reply: Reply, isolate: Isolate, next: Resumed)
    requires NoPointerTried(n) && PubHeard(cfg, n, pub)
    requires (request, reply) in n.log && Fits(request, reply) && request.Perform? && request.w.PutChunk?
    requires next == AfterChunk(cfg, pub, pending, request, reply, isolate)
    ensures ResumedStory(cfg, n, id, isolate, next)
  {}

  lemma RecheckStory(
      cfg: Config, n: Notes, id: CallId, pub: Publication, reply: Reply, isolate: Isolate, next: Resumed)
    requires NoPointerTried(n) && PubHeard(cfg, n, pub)
    requires Heard(n, GetGeneration, reply) && Fits(GetGeneration, reply)
    requires isolate.localGeneration != pub.call.localGeneration ==> n.moved
    requires next.isolate == isolate && next.frame == AfterPublishGeneration(pub, reply, isolate)
    ensures ResumedStory(cfg, n, id, isolate, next)
  {
    assert (GetGeneration, reply) in n.log;
    if !reply.GenerationIs? {
      FinishStory(cfg, n, id, pub, Degraded);
    } else if reply.token != pub.generation.value || isolate.localGeneration != pub.call.localGeneration {
      FinishStory(cfg, n, id, pub, Aborted);
    }
  }

  lemma PreCheckStory(
      cfg: Config, n: Notes, id: CallId, pub: Publication, reply: Reply, isolate: Isolate, next: Resumed)
    requires NoPointerTried(n) && PubHeard(cfg, n, pub) && Heard(n, GetHead, reply) && Fits(GetHead, reply)
    requires next.isolate == isolate && next.frame == AfterPreCheck(pub, reply)
    ensures ResumedStory(cfg, n, id, isolate, next)
  {
    assert (GetHead, reply) in n.log;
    if reply.Failed? {
      FinishStory(cfg, n, id, pub, Degraded);
    } else if reply.HeadIs? && reply.revision != pub.snapshot.revision {
      FinishStory(cfg, n, id, pub, Aborted);
    }
  }

  lemma PointerStory(
      cfg: Config, n: Notes, id: CallId, pub: Publication, reply: Reply, isolate: Isolate, next: Resumed)
    requires PubHeard(cfg, n, pub) && OwnPointerHeard(cfg, n, id, pub, reply) && (reply.Written? || reply.Failed?)
    requires next.isolate == isolate && next.frame ==
      if reply.Written? then PublishPostCheck(pub) else RecoverSnapshot(pub, AtPointer, true)
    ensures ResumedStory(cfg, n, id, isolate, next)
  {
    assert (Perform(PutPointer(PointerOf(cfg, id, pub))), reply) in n.log;
  }

  lemma RecoverStory(
      cfg: Config, n: Notes, id: CallId, pub: Publication, reading: Reading, attempted: bool,
      request: Request, reply: Reply, isolate: Isolate, next: Resumed)
    requires PubHeard(cfg, n, pub) && WriteFailed(n) && (!attempted ==> NoPointerTried(n))
    requires ReadingHeard(n, reading) && ReadingAsks(reading, request)
    requires (request, reply) in n.log && Fits(request, reply) && NotCorrupt(cfg, reading, request, reply)
    requires (reading.AtChunks? ==> PointerIs(Some(reading.p)) in n.recovery)
    requires (request.GetPointer? ==> reply in n.recovery)
    requires
      match ResumeReading(cfg, reading, request, reply)
      case More(reading') => next.isolate == isolate && next.frame == RecoverSnapshot(pub, reading', attempted)
      case Finished(read) => next == AfterRecovery(pub, id, read, attempted, isolate)
    ensures ResumedStory(cfg, n, id, isolate, next)
  {
    ReadingStory(cfg, n, reading, request, reply);
    ReadingFound(cfg, n, n.recovery, reading, request, reply);
    var progress := ResumeReading(cfg, reading, request, reply);
    if progress.Finished? { RecoveryStory(cfg, n, id, pub, progress.read, attempted, isolate); }
  }

  lemma CleanupStory(
      cfg: Config, n: Notes, id: CallId, pub: Publication, after: After, reply: Reply, isolate: Isolate, next: Resumed)
    requires PubHeard(cfg, n, pub) && WhyCleanup(n, id, pub, after) && Heard(n, Perform(PutGeneration), reply)
    requires next.isolate == isolate && next.frame == CleanupSnapshot(pub, AtPointer, after)
    ensures ResumedStory(cfg, n, id, isolate, next)
  {
    assert (Perform(PutGeneration), reply) in n.log;
  }

  lemma CleanupReadStory(
      cfg: Config, n: Notes, id: CallId, pub: Publication, reading: Reading, after: After,
      request: Request, reply: Reply, isolate: Isolate, next: Resumed)
    requires PubHeard(cfg, n, pub) && WhyCleanup(n, id, pub, after) && Asked(n, Perform(PutGeneration))
    requires ReadingHeard(n, reading) && ReadingAsks(reading, request) && NoDeleteTried(n)
    requires (request, reply) in n.log && Fits(request, reply) && NotCorrupt(cfg, reading, request, reply)
    requires (reading.AtChunks? ==> PointerIs(Some(reading.p)) in n.recheck)
    requires (request.GetPointer? ==> reply in n.recheck)
    requires next.isolate == isolate && next.frame ==
      match ResumeReading(cfg, reading, request, reply)
      case More(reading') => CleanupSnapshot(pub, reading', after)
      case Finished(read) => AfterCleanupRead(pub, id, read, after)
    ensures ResumedStory(cfg, n, id, isolate, next)
  {
    ReadingStory(cfg, n, reading, request, reply);
    ReadingFound(cfg, n, n.recheck, reading, request, reply);
    var progress := ResumeReading(cfg, reading, request, reply);
    if progress.Finished? { CleanedStory(cfg, n, id, pub, progress.read, after); }
  }

  lemma CleanupDeleteStory(
      cfg: Config, n: Notes, id: CallId, pub: Publication, after: After, reply: Reply, isolate: Isolate, next: Resumed)
    requires PubHeard(cfg, n, pub) && WhyCleanup(n, id, pub, after)
    requires Asked(n, Perform(PutGeneration)) && Heard(n, Perform(DeletePointer), reply)
    requires NoNewerSeen(n, id, pub.snapshot.refreshedAt)
    requires next.isolate == isolate && next.frame == RunAfter(pub, after)
    ensures ResumedStory(cfg, n, id, isolate, next)
  {
    assert (Perform(DeletePointer), reply) in n.log;
    AfterStory(cfg, n, id, pub, after);
  }

  lemma LoadsStory(
      cfg: Config, n: Notes, id: CallId, frame: Frame, request: Request, reply: Reply, isolate: Isolate)
    requires frame.LoadGeneration? || frame.LoadSnapshot? || frame.LoadHead? || frame.LoadRepository?
    requires Ready(cfg, n, id, frame, request, reply, isolate)
    requires frame.LoadSnapshot? ==> NotCorrupt(cfg, frame.reading, request, reply)
    ensures Resumes(cfg, n, id, frame, request, reply, isolate)
  {
    var next := Resume(cfg, id, frame, request, reply, isolate);
    match frame
    case LoadGeneration(call) =>
    case LoadSnapshot(call, g, reading) => ReadStory(cfg, n, id, call, g, reading, request, reply, isolate, next);
    case LoadHead(call, g, cached, degraded) => HeadStory(cfg, n, id, call, g, cached, degraded, reply, isolate, next);
    case LoadRepository(call, g, cached, degraded, r) =>
      RepositoryStory(cfg, n, id, call, g, cached, degraded, r, reply, isolate, next);
  }

  lemma PublishesStory(
      cfg: Config, n: Notes, id: CallId, frame: Frame, request: Request, reply: Reply, isolate: Isolate)
    requires frame.PublishChunks? || frame.PublishGeneration? || frame.PublishPreCheck? || frame.PublishPointer? ||
      frame.PublishPostCheck?
    requires Ready(cfg, n, id, frame, request, reply, isolate)
    ensures Resumes(cfg, n, id, frame, request, reply, isolate)
  {
    var next := Resume(cfg, id, frame, request, reply, isolate);
    match frame
    case PublishChunks(pub, pending) => ChunkStory(cfg, n, id, pub, pending, request, reply, isolate, next);
    case PublishGeneration(pub) => RecheckStory(cfg, n, id, pub, reply, isolate, next);
    case PublishPreCheck(pub) => PreCheckStory(cfg, n, id, pub, reply, isolate, next);
    case PublishPointer(pub) => PointerStory(cfg, n, id, pub, reply, isolate, next);
    case PublishPostCheck(pub) => PostStory(cfg, n, id, pub, reply, isolate);
  }

  lemma CleansStory(
      cfg: Config, n: Notes, id: CallId, frame: Frame, request: Request, reply: Reply, isolate: Isolate)
    requires frame.RecoverSnapshot? || frame.CleanupGeneration? || frame.CleanupSnapshot? || frame.CleanupDelete?
    requires Ready(cfg, n, id, frame, request, reply, isolate)
    requires frame.RecoverSnapshot? || frame.CleanupSnapshot? ==> NotCorrupt(cfg, frame.reading, request, reply)
    ensures Resumes(cfg, n, id, frame, request, reply, isolate)
  {
    var next := Resume(cfg, id, frame, request, reply, isolate);
    match frame
    case RecoverSnapshot(pub, reading, attempted) =>
      RecoverStory(cfg, n, id, pub, reading, attempted, request, reply, isolate, next);
    case CleanupGeneration(pub, after) => CleanupStory(cfg, n, id, pub, after, reply, isolate, next);
    case CleanupSnapshot(pub, reading, after) =>
      CleanupReadStory(cfg, n, id, pub, reading, after, request, reply, isolate, next);
    case CleanupDelete(pub, after) => CleanupDeleteStory(cfg, n, id, pub, after, reply, isolate, next);
  }

  lemma InvalidatesStory(
      cfg: Config, n: Notes, id: CallId, frame: Frame, request: Request, reply: Reply, isolate: Isolate)
    requires frame.InvalidateGeneration? || frame.InvalidateDelete?
    requires Ready(cfg, n, id, frame, request, reply, isolate)
    ensures Resumes(cfg, n, id, frame, request, reply, isolate)
  {}

  lemma ResumeStory(
      cfg: Config, n: Notes, id: CallId, frame: Frame, request: Request, reply: Reply, isolate: Isolate)
    requires Ready(cfg, n, id, frame, request, reply, isolate)
    requires frame.LoadSnapshot? || frame.RecoverSnapshot? || frame.CleanupSnapshot? ==>
      NotCorrupt(cfg, frame.reading, request, reply)
    ensures Resumes(cfg, n, id, frame, request, reply, isolate)
  {
    if frame.LoadGeneration? || frame.LoadSnapshot? || frame.LoadHead? || frame.LoadRepository? {
      LoadsStory(cfg, n, id, frame, request, reply, isolate);
    } else if frame.RecoverSnapshot? || frame.CleanupGeneration? || frame.CleanupSnapshot? || frame.CleanupDelete? {
      CleansStory(cfg, n, id, frame, request, reply, isolate);
    } else if frame.InvalidateGeneration? || frame.InvalidateDelete? {
      InvalidatesStory(cfg, n, id, frame, request, reply, isolate);
    } else {
      PublishesStory(cfg, n, id, frame, request, reply, isolate);
    }
  }

  // ---- over a run ----

  /** The reply in the inbox is never a sign of a torn snapshot. */
  lemma NeverCorrupt(cfg: Config, s: State, id: CallId)
    requires Inv(cfg, s) && id in s.tasks && s.tasks[id].inbox.Some?
    requires s.tasks[id].frame.LoadSnapshot? || s.tasks[id].frame.RecoverSnapshot? || s.tasks[id].frame.CleanupSnapshot?
    ensures
      var (request, reply) := s.tasks[id].inbox.value;
      NotCorrupt(cfg, s.tasks[id].frame.reading, request, reply)
  {
    var task := s.tasks[id];
    assert TaskOk(cfg, s, id, task);
    ReadingKeeps(cfg, s, task.frame, task.frame.reading, task.inbox.value.0, task.inbox.value.1);
  }

  /** The notes as the next continuation will leave them. */
  function NotesAfter(n: Notes, isolate: Isolate, next: Resumed): Notes {
    if next.isolate == Dirty(isolate) then Dirtied(n) else n
  }

  lemma ContinueAt(cfg: Config, s: State, n: Notes, id: CallId)
    requires Inv(cfg, s) && Story(cfg, n, s, id) && Enabled(cfg, s, Continue(id))
    ensures
      var task, isolate := s.tasks[id], IsolateOf(s, s.tasks[id].isolate);
      ResumedStory(cfg, n, id, isolate,
                   Resume(cfg, id, task.frame, task.inbox.value.0, task.inbox.value.1, isolate))
  {
    var task := s.tasks[id];
    assert TaskOk(cfg, s, id, task);
    if task.frame.LoadSnapshot? || task.frame.RecoverSnapshot? || task.frame.CleanupSnapshot? {
      NeverCorrupt(cfg, s, id);
    }
    ResumeStory(cfg, n, id, task.frame, task.inbox.value.0, task.inbox.value.1, IsolateOf(s, task.isolate));
  }

  lemma SameIsolate(cfg: Config, id: CallId, frame: Frame, request: Request, reply: Reply, isolate: Isolate)
    ensures
      var next := Resume(cfg, id, frame, request, reply, isolate).isolate;
      || next == isolate || next == isolate.(invalidated := false)
      || (next == Dirty(isolate) && CallOf(frame).Some?)
  {}

  lemma StillBeforeDelete(cfg: Config, id: CallId, frame: Frame, request: Request, reply: Reply, isolate: Isolate)
    ensures BeforeDelete(Resume(cfg, id, frame, request, reply, isolate).frame) ==> BeforeDelete(frame)
  {}

  lemma StillReading(cfg: Config, id: CallId, frame: Frame, request: Request, reply: Reply, isolate: Isolate)
    requires Asks(cfg, id, frame, request) && Resume(cfg, id, frame, request, reply, isolate).frame.LoadSnapshot?
    ensures frame.LoadGeneration? || (frame.LoadSnapshot? && !reply.Failed?)
  {}

  /** Running on keeps the notes up to date, whatever is claimed of them. */
  lemma ContinueKeepsStory(
      cfg: Config, s: State, n: Notes, id: CallId, P: (Notes, Frame) -> bool, next: Resumed, s': State)
    requires StoryOf(P, n, s, id) && id in s.tasks && s.tasks[id].inbox.Some?
    requires s'.tasks == s.tasks[id := Task(s.tasks[id].isolate, next.frame, None)]
    requires s'.isolates == s.isolates[s.tasks[id].isolate := next.isolate]
    requires
      var frame, isolate := s.tasks[id].frame, IsolateOf(s, s.tasks[id].isolate);
      && P(NotesAfter(n, isolate, next), next.frame) && CallOf(next.frame) == CallOf(frame)
      && (next.isolate == isolate || next.isolate == isolate.(invalidated := false) ||
          (next.isolate == Dirty(isolate) && CallOf(frame).Some?))
      && (next.frame.LoadSnapshot? ==> !n.readFailed) && (BeforeDelete(next.frame) ==> BeforeDelete(frame))
    ensures StoryOf(P, Observe(n, s', id), s', id)
  {
    var isolate := IsolateOf(s, s.tasks[id].isolate);
    assert Observe(n, s', id) == NotesAfter(n, isolate, next);
  }

  lemma NotYetFailed(cfg: Config, s: State, n: Notes, id: CallId)
    requires Story(cfg, n, s, id) && id in s.tasks && s.tasks[id].inbox.Some?
    requires
      var task := s.tasks[id];
      task.frame.LoadGeneration? || (task.frame.LoadSnapshot? && !task.inbox.value.1.Failed?)
    ensures !n.readFailed
  {
    assert FrameStories(cfg, id)(n, s.tasks[id].frame);
  }

  lemma ContinueStory(cfg: Config, s: State, n: Notes, id: CallId)
    requires Inv(cfg, s) && Story(cfg, n, s, id) && Enabled(cfg, s, Continue(id))
    ensures
      var s' := Take(cfg, s, Continue(id));
      Story(cfg, Observe(n, s', id), s', id)
  {
    var task, isolate := s.tasks[id], IsolateOf(s, s.tasks[id].isolate);
    var request, reply := task.inbox.value.0, task.inbox.value.1;
    var next := Resume(cfg, id, task.frame, request, reply, isolate);
    assert TaskOk(cfg, s, id, task);
    ContinueAt(cfg, s, n, id);
    SameCall(cfg, id, task.frame, request, reply, isolate);
    SameIsolate(cfg, id, task.frame, request, reply, isolate);
    StillBeforeDelete(cfg, id, task.frame, request, reply, isolate);
    if next.frame.LoadSnapshot? {
      StillReading(cfg, id, task.frame, request, reply, isolate);
      NotYetFailed(cfg, s, n, id);
    }
    ContinueKeepsStory(cfg, s, n, id, FrameStories(cfg, id), next, Take(cfg, s, Continue(id)));
  }

  lemma AskedPointer(cfg: Config, id: CallId, frame: Frame, request: Request)
    requires Asks(cfg, id, frame, request) && !frame.PublishPointer?
    ensures !(request.Perform? && request.w.PutPointer?)
  {}

  lemma ServeStory(cfg: Config, s: State, n: Notes, id: CallId, step: Step)
    requires Story(cfg, n, s, id) && step.Serve? && step.id == id && Enabled(cfg, s, step)
    ensures
      var s' := Take(cfg, s, step);
      Story(cfg, Observe(n, s', id), s', id)
  {
    var frame, n' := s.tasks[id].frame, Observe(n, Take(cfg, s, step), id);
    if !frame.PublishPointer? { AskedPointer(cfg, id, frame, step.request); }
    StoryGrows(cfg, n, n', id, frame);
  }

  /** What others do changes neither the call nor its inbox, and takes no local generation back. */
  lemma OtherKeepsStory(cfg: Config, s: State, n: Notes, id: CallId, s': State)
    requires Story(cfg, n, s, id) && id in s.tasks && id in s'.tasks && s'.tasks[id] == s.tasks[id]
    requires IsolateOf(s, s.tasks[id].isolate).localGeneration <= IsolateOf(s', s.tasks[id].isolate).localGeneration
    ensures Story(cfg, Observe(n, s', id), s', id)
  {
    StoryGrows(cfg, n, Observe(n, s', id), id, s.tasks[id].frame);
  }

  lemma StartStory(cfg: Config, s: State, id: CallId, step: Step)
    requires (step.StartLoad? || step.StartInvalidate?) && step.id == id && Enabled(cfg, s, step)
    ensures
      var s' := Take(cfg, s, step);
      Story(cfg, Observe(Nothing, s', id), s', id)
  {}

  lemma GenerationsOnlyGrow(cfg: Config, s: State, step: Step, home: IsolateId)
    requires Enabled(cfg, s, step)
    ensures IsolateOf(s, home).localGeneration <= IsolateOf(Take(cfg, s, step), home).localGeneration
  {
    if step.Continue? {
      var task := s.tasks[step.id];
      LocalGrows(cfg, step.id, task.frame, task.inbox.value.0, task.inbox.value.1, IsolateOf(s, task.isolate));
    }
  }

  lemma LocalGrows(cfg: Config, id: CallId, frame: Frame, request: Request, reply: Reply, isolate: Isolate)
    ensures isolate.localGeneration <= Resume(cfg, id, frame, request, reply, isolate).isolate.localGeneration
  {}

  /** A step of another call, or of nobody, leaves this one as it is. */
  lemma LeftAlone(cfg: Config, s: State, step: Step, id: CallId)
    requires Enabled(cfg, s, step) && id in s.tasks && step != Continue(id) && !(step.Serve? && step.id == id)
    ensures id in Take(cfg, s, step).tasks && Take(cfg, s, step).tasks[id] == s.tasks[id]
  {}

  lemma OnlyStarts(cfg: Config, s: State, step: Step, id: CallId)
    requires Enabled(cfg, s, step) && id !in s.tasks && id in Take(cfg, s, step).tasks
    ensures (step.StartLoad? || step.StartInvalidate?) && step.id == id
  {}

  lemma StepStory(cfg: Config, s: State, n: Notes, id: CallId, s': State)
    requires Inv(cfg, s) && Next(cfg, s, s') && Story(cfg, n, s, id) && (id !in s.tasks ==> n == Nothing)
    ensures Story(cfg, Observe(n, s', id), s', id) && (id !in s'.tasks ==> Observe(n, s', id) == Nothing)
  {
    var step :| Enabled(cfg, s, step) && s' == Take(cfg, s, step);
    if id !in s.tasks {
      if id in s'.tasks {
        OnlyStarts(cfg, s, step, id);
        StartStory(cfg, s, id, step);
      }
    } else if step == Continue(id) {
      ContinueStory(cfg, s, n, id);
    } else if step.Serve? && step.id == id {
      ServeStory(cfg, s, n, id, step);
    } else {
      GenerationsOnlyGrow(cfg, s, step, s.tasks[id].isolate);
      LeftAlone(cfg, s, step, id);
      OtherKeepsStory(cfg, s, n, id, s');
    }
  }

  lemma {:induction false} RunStory(cfg: Config, run: seq<State>, k: nat, id: CallId)
    requires IsRun(cfg, run) && k < |run|
    ensures Story(cfg, NotesAt(run, k, id), run[k], id) && (id !in run[k].tasks ==> NotesAt(run, k, id) == Nothing)
  {
    if k > 0 {
      RunStory(cfg, run, k - 1, id);
      RunKeeps(cfg, run, k - 1);
      assert StepAt(cfg, run, k - 1);
      StepStory(cfg, run[k - 1], NotesAt(run, k - 1, id), id, run[k]);
    }
  }

  // ---- what the callers can rely on ----

  /** Every answer of `load` has its reason in the replies the call got. */
  lemma EveryAnswerIsExplained(
      cfg: Config, run: seq<State>, k: nat, id: CallId, call: Call, g: GenerationRead, result: LoadResult)
    requires IsRun(cfg, run) && k < |run| && Returned(run[k], id, call, g, result)
    ensures Explained(cfg, NotesAt(run, k, id), id, call, g, result)
  {
    RunStory(cfg, run, k, id);
    assert FrameStories(cfg, id)(NotesAt(run, k, id), run[k].tasks[id].frame);
  }

  /** The notes say nothing that did not happen. */
  lemma {:induction false} NotesHappened(run: seq<State>, k: nat, id: CallId)
    requires k < |run|
    ensures NotesAt(run, k, id).dirty ==>
      exists m: nat :: m <= k && id in run[m].tasks && IsolateOf(run[m], run[m].tasks[id].isolate).invalidated
    ensures NotesAt(run, k, id).readFailed ==>
      exists m: nat ::
        m <= k && id in run[m].tasks && run[m].tasks[id].frame.LoadSnapshot? && GotFailed(run[m].tasks[id])
    ensures NotesAt(run, k, id).readFailed ==> AnyFailed(NotesAt(run, k, id))
  {
    if k > 0 {
      NotesHappened(run, k - 1, id);
      if id in run[k].tasks && run[k].tasks[id].inbox.Some? {
        assert run[k].tasks[id].inbox.value in NotesAt(run, k, id).log;
      }
      if AnyFailed(NotesAt(run, k - 1, id)) {
        var e :| e in NotesAt(run, k - 1, id).log && e.1 == Failed;
        assert e in NotesAt(run, k, id).log;
      }
    } else if id in run[0].tasks && run[0].tasks[id].inbox.Some? {
      assert run[0].tasks[id].inbox.value in NotesAt(run, 0, id).log;
    }
  }

  predicate GotFailed(task: Task) { task.inbox.Some? && task.inbox.value.1.Failed? }

  /** At some instant up to k the call got this reply to this request. */
  ghost predicate Got(run: seq<State>, k: nat, id: CallId, request: Request, reply: Reply) {
    exists m: nat :: m <= k && m < |run| && id in run[m].tasks && run[m].tasks[id].inbox == Some((request, reply))
  }

  /** A forced refresh is never answered from the cache alone: the head was asked for. */
  lemma ForcedIsNeverFresh(
      cfg: Config, run: seq<State>, k: nat, id: CallId, call: Call, g: GenerationRead, result: LoadResult)
    requires IsRun(cfg, run) && k < |run| && Returned(run[k], id, call, g, result) && call.force && result.Loaded?
    ensures !result.state.FreshCache?
    ensures !result.state.StaleCache? ==> Got(run, k, id, GetHead, HeadIs(result.snapshot.revision))
  {
    EveryAnswerIsExplained(cfg, run, k, id, call, g, result);
    if !result.state.StaleCache? { LogIsHeard(run, k, id, GetHead, HeadIs(result.snapshot.revision)); }
  }

  /** A stale answer means that this very call asked the repository and found it unavailable. */
  lemma StaleMeansUnavailable(
      cfg: Config, run: seq<State>, k: nat, id: CallId, call: Call, g: GenerationRead, result: LoadResult)
    requires IsRun(cfg, run) && k < |run| && Returned(run[k], id, call, g, result)
    requires result.Loaded? && result.state.StaleCache?
    ensures exists request: Request ::
      (request.GetHead? || request.LoadCatalogue?) && Got(run, k, id, request, Failed)
  {
    EveryAnswerIsExplained(cfg, run, k, id, call, g, result);
    var n := NotesAt(run, k, id);
    var e :| e in n.log && (e.0.GetHead? || e.0.LoadCatalogue?) && e.1 == Failed;
    LogIsHeard(run, k, id, e.0, Failed);
  }

  /** A pointer the load can answer from: of its own generation and within the window. */
  predicate Usable(cfg: Config, call: Call, g: GenerationRead, p: Option<Pointer>) {
    p.Some? && p.value.generation == g.value && call.now - p.value.refreshedAt < cfg.window
  }

  /** The cache is used when it can be: an unforced load of a clean isolate, whose reads worked and found a usable
      pointer, answers from it. */
  lemma FreshWhenItCan(
      cfg: Config, run: seq<State>, k: nat, id: CallId, call: Call, g: GenerationRead, result: LoadResult)
    requires IsRun(cfg, run) && k < |run| && Returned(run[k], id, call, g, result) && !call.force && !g.failed
    requires forall m: nat :: m <= k && id in run[m].tasks ==>
      && !IsolateOf(run[m], run[m].tasks[id].isolate).invalidated
      && !(run[m].tasks[id].frame.LoadSnapshot? && GotFailed(run[m].tasks[id]))
    requires forall p :: Got(run, k, id, GetPointer, PointerIs(p)) ==> Usable(cfg, call, g, p)
    ensures result.Loaded? && result.state.FreshCache?
  {
    var n := NotesAt(run, k, id);
    EveryAnswerIsExplained(cfg, run, k, id, call, g, result);
    NotesHappened(run, k, id);
    if Heard(n, GetPointer, PointerIs(None)) {
      LogIsHeard(run, k, id, GetPointer, PointerIs(None));
      assert Got(run, k, id, GetPointer, PointerIs(None));
    }
    forall p | PointerHeard(n, p) ensures Usable(cfg, call, g, Some(p)) {
      LogIsHeard(run, k, id, GetPointer, PointerIs(Some(p)));
      assert Got(run, k, id, GetPointer, PointerIs(Some(p)));
    }
    assert !WhyNotFresh(cfg, call, n, g);
  }

  /** A full reload loads the catalogue from the repository, whatever the cache holds. */
  lemma FullReloads(
      cfg: Config, run: seq<State>, k: nat, id: CallId, call: Call, g: GenerationRead, result: LoadResult)
    requires IsRun(cfg, run) && k < |run| && Returned(run[k], id, call, g, result) && call.full && result.Loaded?
    requires result.state.RefreshedCache? || result.state.DegradedCache?
    ensures Got(run, k, id, LoadCatalogue(result.snapshot.revision), CatalogueIs(result.snapshot.entries))
  {
    EveryAnswerIsExplained(cfg, run, k, id, call, g, result);
    LogIsHeard(run, k, id, LoadCatalogue(result.snapshot.revision), CatalogueIs(result.snapshot.entries));
  }

  /** Nothing went wrong for the call: no reply failed or was denied, what was loaded was valid, and head, generation
      and local generation stayed the same. */
  predicate Quiet(cfg: Config, n: Notes) {
    && !n.moved && !AnyFailed(n) && !RepositoryDenied(n) && !InvalidLoaded(cfg, n)
    && (forall e, f :: e in n.log && f in n.log && e.1.HeadIs? && f.1.HeadIs? ==> e.1.revision == f.1.revision)
    && (forall e, f :: e in n.log && f in n.log && e.1.GenerationIs? && f.1.GenerationIs? ==> e.1.token == f.1.token)
  }

  /** A load that nothing disturbed answers fresh, or refreshed with its snapshot published. */
  lemma QuietLoadPublishes(
      cfg: Config, run: seq<State>, k: nat, id: CallId, call: Call, g: GenerationRead, result: LoadResult)
    requires IsRun(cfg, run) && k < |run| && Returned(run[k], id, call, g, result) && Quiet(cfg, NotesAt(run, k, id))
    ensures result.Loaded?
    ensures result.state.FreshCache? || (result.state.RefreshedCache? && result.publish == Some(Published))
  {
    var n := NotesAt(run, k, id);
    EveryAnswerIsExplained(cfg, run, k, id, call, g, result);
    NotesHappened(run, k, id);
    assert RepositoryFailed(n) ==> AnyFailed(n);
    assert WriteFailed(n) ==> AnyFailed(n);
    assert g.failed ==> (GetGeneration, Failed) in n.log;
    if result.Loaded? && result.publish.Some? {
      assert (GetGeneration, GenerationIs(g.value)) in n.log;
      assert (GetHead, HeadIs(result.snapshot.revision)) in n.log;
    }
  }

  /** After a failed write, somebody else's publication of the same revision does as well: the load is not degraded if
      that is what it found, and none of its queries failed. */
  lemma CompetitorIsAccepted(
      cfg: Config, run: seq<State>, k: nat, id: CallId, call: Call, g: GenerationRead, result: LoadResult)
    requires IsRun(cfg, run) && k < |run| && Returned(run[k], id, call, g, result) && result.Loaded?
    requires !QueryFailed(NotesAt(run, k, id))
    requires forall reply :: reply in NotesAt(run, k, id).recovery ==> Competes(reply, id, g, result.snapshot)
    ensures result.publish != Some(Degraded)
  {
    EveryAnswerIsExplained(cfg, run, k, id, call, g, result);
  }

  /** A pointer that this call may have made visible without verifying it is taken back before the call returns; but
      somebody else's newer pointer is left alone. */
  lemma UnverifiedIsTakenBack(
      cfg: Config, run: seq<State>, k: nat, id: CallId, call: Call, g: GenerationRead, result: LoadResult)
    requires IsRun(cfg, run) && k < |run| && Returned(run[k], id, call, g, result)
    requires !NoPointerTried(NotesAt(run, k, id))
    requires result.Loaded? ==> result.publish != Some(Published) && result.publish != Some(Competing)
    ensures TakenBack(NotesAt(run, k, id), id, call.now)
  {
    EveryAnswerIsExplained(cfg, run, k, id, call, g, result);
  }

  /** When a load returns with its snapshot published, its isolate is clean. */
  lemma PublishedCleans(cfg: Config, s: State, s': State, id: CallId)
    requires Next(cfg, s, s') && id in s.tasks && !s.tasks[id].frame.LoadDone? && id in s'.tasks
    requires s'.tasks[id].frame.LoadDone? && s'.tasks[id].frame.result.Loaded?
    requires s'.tasks[id].frame.result.publish == Some(Published)
    ensures !IsolateOf(s', s.tasks[id].isolate).invalidated
  {
    var step :| Enabled(cfg, s, step) && s' == Take(cfg, s, step);
    if step != Continue(id) && !(step.Serve? && step.id == id) { LeftAlone(cfg, s, step, id); }
    assert step == Continue(id);
    var task := s.tasks[id];
    ReturnsPublished(cfg, id, task.frame, task.inbox.value.0, task.inbox.value.1, IsolateOf(s, task.isolate));
  }

  lemma ReturnsPublished(cfg: Config, id: CallId, frame: Frame, request: Request, reply: Reply, isolate: Isolate)
    requires !frame.LoadDone?
    ensures
      var next := Resume(cfg, id, frame, request, reply, isolate);
      next.frame.LoadDone? && next.frame.result.Loaded? && next.frame.result.publish == Some(Published) ==>
      !next.isolate.invalidated
  {}

  /** The call has not yet read the generation again before it publishes. */
  predicate BeforeRecheck(frame: Frame) {
    || frame.LoadGeneration? || frame.LoadSnapshot? || frame.LoadHead? || frame.LoadRepository?
    || frame.PublishChunks? || frame.PublishGeneration?
  }

  /** The call has tried no pointer yet, or has returned. */
  predicate BeforePointer(frame: Frame) {
    BeforeRecheck(frame) || frame.LoadDone? || (frame.RecoverSnapshot? && !frame.pointerAttempted)
  }

  /** The isolate's local generation has moved on, and the call has not got as far as its pointer. */
  predicate Overtaken(s: State, id: CallId) {
    && id in s.tasks
    && var task := s.tasks[id];
       && BeforePointer(task.frame)
       && CallOf(task.frame).value.localGeneration < IsolateOf(s, task.isolate).localGeneration
  }

  lemma OvertakenResumes(cfg: Config, id: CallId, frame: Frame, request: Request, reply: Reply, isolate: Isolate)
    requires BeforePointer(frame) && CallOf(frame).value.localGeneration < isolate.localGeneration
    ensures BeforePointer(Resume(cfg, id, frame, request, reply, isolate).frame)
  {}

  lemma OvertakenStays(cfg: Config, s: State, s': State, id: CallId, n: Notes)
    requires Next(cfg, s, s') && Overtaken(s, id) && NoPointerTried(n)
    requires s.tasks[id].inbox.Some? ==> s.tasks[id].inbox.value in n.log
    ensures Overtaken(s', id) && NoPointerTried(Observe(n, s', id))
  {
    var step :| Enabled(cfg, s, step) && s' == Take(cfg, s, step);
    var task := s.tasks[id];
    GenerationsOnlyGrow(cfg, s, step, task.isolate);
    if step == Continue(id) {
      var isolate := IsolateOf(s, task.isolate);
      OvertakenResumes(cfg, id, task.frame, task.inbox.value.0, task.inbox.value.1, isolate);
      SameCall(cfg, id, task.frame, task.inbox.value.0, task.inbox.value.1, isolate);
    } else if step.Serve? && step.id == id {
      AskedPointer(cfg, id, task.frame, step.request);
    } else {
      LeftAlone(cfg, s, step, id);
    }
  }

  /** A load whose isolate was invalidated before it read the generation again never tries to store a pointer, even if
      the invalidation's own writes failed and the generation it reads is the old one. */
  lemma {:induction false} InvalidatedNeverPublishes(cfg: Config, run: seq<State>, m: nat, k: nat, id: CallId)
    requires IsRun(cfg, run) && m <= k < |run| && id in run[m].tasks && BeforeRecheck(run[m].tasks[id].frame)
    requires CallOf(run[m].tasks[id].frame).value.localGeneration !=
      IsolateOf(run[m], run[m].tasks[id].isolate).localGeneration
    ensures Overtaken(run[k], id) && NoPointerTried(NotesAt(run, k, id))
    decreases k
  {
    if m == k {
      RunStory(cfg, run, k, id);
      assert FrameStories(cfg, id)(NotesAt(run, k, id), run[k].tasks[id].frame);
    } else {
      InvalidatedNeverPublishes(cfg, run, m, k - 1, id);
      assert StepAt(cfg, run, k - 1);
      RunStory(cfg, run, k - 1, id);
      OvertakenStays(cfg, run[k - 1], run[k], id, NotesAt(run, k - 1, id));
    }
  }

  /** `invalidate` reports success exactly when it stored a new token and deleted the pointer, and failure only when one
      of its writes failed; either way its isolate was dirty. */
  lemma InvalidateReports(cfg: Config, run: seq<State>, k: nat, id: CallId, ok: bool)
    requires IsRun(cfg, run) && k < |run| && id in run[k].tasks && run[k].tasks[id].frame == InvalidateDone(ok)
    ensures NotesAt(run, k, id).dirty
    ensures ok ==>
      Got(run, k, id, Perform(PutGeneration), Written) && Got(run, k, id, Perform(DeletePointer), Written)
    ensures !ok ==> WriteFailed(NotesAt(run, k, id))
  {
    RunStory(cfg, run, k, id);
    assert FrameStories(cfg, id)(NotesAt(run, k, id), run[k].tasks[id].frame);
    if ok {
      LogIsHeard(run, k, id, Perform(PutGeneration), Written);
      LogIsHeard(run, k, id, Perform(DeletePointer), Written);
    }
  }
}
