/** What the catalogue cache promises its callers, over whole runs. */
module CatalogueTheorems {
  import opened Options
  import opened Chunking
  import opened CatalogueProtocol
  import opened CatalogueInvariant

  /** Call `id` has returned `result` in state s; `generation` is what it read of the generation key. */
  ghost predicate Returned(s: State, id: CallId, call: Call, generation: GenerationRead, result: LoadResult) {
    id in s.tasks && s.tasks[id].frame == LoadDone(call, generation, result)
  }

  lemma StepAdds(cfg: Config, run: seq<State>, k: nat)
    requires IsRun(cfg, run) && k + 1 < |run|
    ensures Inv(cfg, run[k]) && Later(run[k], run[k + 1])
  {
    RunKeeps(cfg, run, k);
    assert StepAt(cfg, run, k);
    NextKeeps(cfg, run[k], run[k + 1]);
  }

  lemma {:induction false} RunLater(cfg: Config, run: seq<State>, i: nat, k: nat)
    requires IsRun(cfg, run) && i <= k < |run|
    ensures |run[i].store.heads| <= |run[k].store.heads|
    ensures |run[i].store.generations| <= |run[k].store.generations|
    ensures forall t :: 0 <= t < |run[i].store.generations| ==>
      run[k].store.generations[t] == run[i].store.generations[t]
    decreases k
  {
    if i < k {
      RunLater(cfg, run, i, k - 1);
      StepAdds(cfg, run, k - 1);
    }
  }

  // ---- a pointer is written last, so it never dangles ----

  /** In every reachable state the chunks named by the pointer are all there and, put together as a
      reader does, are exactly the catalogue of the pointer's revision, whoever wrote them. */
  lemma PointerNeverTorn(cfg: Config, run: seq<State>, k: nat)
    requires IsRun(cfg, run) && k < |run|
    requires run[k].store.pointer.Some?
    ensures var p := run[k].store.pointer.value;
      && (forall i: nat :: i < p.count ==> HasChunk(run[k], p.revision, i))
      && Flatten(seq(p.count, i requires 0 <= i < p.count && HasChunk(run[k], p.revision, i) =>
                       run[k].store.chunks[(p.revision, i)]))
           == cfg.catalogue(p.revision)
  {
    RunKeeps(cfg, run, k);
    var s, p := run[k], run[k].store.pointer.value;
    assert HasChunks(cfg, s, p.revision);
    assert seq(p.count, i requires 0 <= i < p.count && HasChunk(s, p.revision, i) => s.store.chunks[(p.revision, i)])
        == ChunksOf(cfg, cfg.catalogue(p.revision)) by {
      forall i: nat | i < p.count
        ensures HasChunk(s, p.revision, i)
        ensures s.store.chunks[(p.revision, i)] == ChunksOf(cfg, cfg.catalogue(p.revision))[i]
      {
        assert HasChunk(s, p.revision, i);
        assert ChunkIsRight(cfg, p.revision, i, s.store.chunks[(p.revision, i)]);
      }
    }
    GroupsLossless(cfg.enc, cfg.limit, cfg.catalogue(p.revision));
  }

  // ---- exact content and bounded staleness ----

  lemma {:induction false} HeadWitness(cfg: Config, run: seq<State>, k: nat, r: Revision, t: nat) returns (m: nat)
    requires IsRun(cfg, run) && k < |run| && HeadSince(run[k], r, t)
    ensures m <= k && Head(run[m].store) == r && t <= run[m].clock
  {
    if Head(run[k].store) == r {
      m := k;
    } else {
      assert k > 0;
      StepAdds(cfg, run, k - 1);
      m := HeadWitness(cfg, run, k - 1, r, t);
    }
  }

  /** Every answer of `load` is exactly the catalogue of a revision that was the head at an instant no
      earlier than the answer's `refreshedAt`. For a fresh answer that is less than the window before
      the call began; a refreshed or degraded answer names the head at an instant after the call began. */
  lemma LoadIsExactAndRecent(
      cfg: Config, run: seq<State>, k: nat, id: CallId, call: Call, generation: GenerationRead, result: LoadResult)
    requires IsRun(cfg, run) && k < |run|
    requires Returned(run[k], id, call, generation, result) && result.Loaded?
    ensures result.snapshot.entries == cfg.catalogue(result.snapshot.revision)
    ensures exists m: nat ::
      m <= k && Head(run[m].store) == result.snapshot.revision && result.snapshot.refreshedAt <= run[m].clock
    ensures result.state == FreshCache ==> call.now - result.snapshot.refreshedAt < cfg.window
    ensures result.state == RefreshedCache || result.state == DegradedCache ==> result.snapshot.refreshedAt == call.now
  {
    RunKeeps(cfg, run, k);
    assert TaskOk(cfg, run[k], id, run[k].tasks[id]);
    var m := HeadWitness(cfg, run, k, result.snapshot.revision, result.snapshot.refreshedAt);
  }

  // ---- read your writes ----

  function GenerationOf(frame: Frame): Option<GenerationRead> {
    match frame
    case LoadSnapshot(_, generation, _) => Some(generation)
    case LoadHead(_, generation, _, _) => Some(generation)
    case LoadRepository(_, generation, _, _, _) => Some(generation)
    case PublishChunks(pub, _) => Some(pub.generation)
    case PublishGeneration(pub) => Some(pub.generation)
    case PublishPreCheck(pub) => Some(pub.generation)
    case PublishPointer(pub) => Some(pub.generation)
    case PublishPostCheck(pub) => Some(pub.generation)
    case RecoverSnapshot(pub, _, _) => Some(pub.generation)
    case CleanupGeneration(pub, _) => Some(pub.generation)
    case CleanupSnapshot(pub, _, _) => Some(pub.generation)
    case CleanupDelete(pub, _) => Some(pub.generation)
    case LoadDone(_, generation, _) => Some(generation)
    case _ => None
  }

  /** The call has read, or is about to read, a token no older than `token`. */
  predicate SawToken(task: Task, token: Token) {
    && (GenerationOf(task.frame).Some? ==>
        GenerationOf(task.frame).value.failed || token <= GenerationOf(task.frame).value.value)
    && (task.frame.LoadGeneration? && task.inbox.Some? && task.inbox.value.1.GenerationIs? ==>
        token <= task.inbox.value.1.token)
  }

  lemma ResumeKeepsGeneration(cfg: Config, id: CallId, frame: Frame, request: Request, reply: Reply, isolate: Isolate)
    requires !frame.LoadGeneration?
    ensures GenerationOf(Resume(cfg, id, frame, request, reply, isolate).frame) == GenerationOf(frame)
    ensures !Resume(cfg, id, frame, request, reply, isolate).frame.LoadGeneration?
  {}

  lemma ResumeReadsToken(
      cfg: Config, id: CallId, frame: Frame, request: Request, reply: Reply, isolate: Isolate, token: Token)
    requires frame.LoadGeneration? && (reply.GenerationIs? ==> token <= reply.token)
    ensures
      var next := Resume(cfg, id, frame, request, reply, isolate).frame;
      && !next.LoadGeneration?
      && (GenerationOf(next).Some? ==> GenerationOf(next).value.failed || token <= GenerationOf(next).value.value)
  {}

  lemma ContinueSawToken(cfg: Config, s: State, id: CallId, token: Token)
    requires Enabled(cfg, s, Continue(id)) && id in s.tasks && SawToken(s.tasks[id], token)
    ensures
      var after := Take(cfg, s, Continue(id)).tasks;
      id in after && SawToken(after[id], token)
  {
    var task := s.tasks[id];
    var (request, reply) := task.inbox.value;
    var isolate := IsolateOf(s, task.isolate);
    if task.frame.LoadGeneration? {
      ResumeReadsToken(cfg, id, task.frame, request, reply, isolate, token);
    } else {
      ResumeKeepsGeneration(cfg, id, task.frame, request, reply, isolate);
    }
  }

  lemma ServeSawToken(cfg: Config, s: State, step: Step, id: CallId, token: Token)
    requires step.Serve? && step.id == id && Enabled(cfg, s, step) && token <= CurrentToken(s.store)
    requires id in s.tasks && SawToken(s.tasks[id], token)
    ensures
      var after := Take(cfg, s, step).tasks;
      id in after && SawToken(after[id], token)
  {}

  lemma StepSawToken(cfg: Config, s: State, s': State, id: CallId, token: Token)
    requires Next(cfg, s, s') && token <= CurrentToken(s.store)
    requires id in s.tasks ==> SawToken(s.tasks[id], token)
    ensures id in s'.tasks ==> SawToken(s'.tasks[id], token)
  {
    var step :| Enabled(cfg, s, step) && s' == Take(cfg, s, step);
    if step == Continue(id) {
      ContinueSawToken(cfg, s, id, token);
    } else if step.Serve? && step.id == id {
      ServeSawToken(cfg, s, step, id, token);
    }
  }

  lemma {:induction false} RunSawToken(cfg: Config, run: seq<State>, i: nat, k: nat, id: CallId)
    requires IsRun(cfg, run) && i <= k < |run|
    requires id !in run[i].tasks
    ensures id in run[k].tasks ==> SawToken(run[k].tasks[id], CurrentToken(run[i].store))
    decreases k
  {
    if i < k {
      RunSawToken(cfg, run, i, k - 1, id);
      RunLater(cfg, run, i, k - 1);
      assert StepAt(cfg, run, k - 1);
      StepSawToken(cfg, run[k - 1], run[k], id, CurrentToken(run[i].store));
    }
  }

  /** Step i stores a generation token while the head is at r. Every `load` that begins after that and
      manages to read the generation key answers with r or a later revision, however it answers and
      whatever slow publishers or late writes do in between. */
  lemma ReadYourWrites(
      cfg: Config, run: seq<State>, i: nat, k: nat, id: CallId, call: Call, generation: GenerationRead,
      result: LoadResult)
    requires IsRun(cfg, run) && i + 1 <= k < |run|
    requires CurrentToken(run[i + 1].store) == CurrentToken(run[i].store) + 1
    requires id !in run[i + 1].tasks
    requires Returned(run[k], id, call, generation, result)
    requires !generation.failed && result.Loaded?
    ensures Head(run[i].store) <= result.snapshot.revision
  {
    RunKeeps(cfg, run, i);
    RunKeeps(cfg, run, k);
    StepAdds(cfg, run, i);
    var token := CurrentToken(run[i + 1].store);
    assert run[i + 1].store.generations[token - 1] == Head(run[i].store);
    RunLater(cfg, run, i + 1, k);
    RunSawToken(cfg, run, i + 1, k, id);
    assert TaskOk(cfg, run[k], id, run[k].tasks[id]);
    assert token <= generation.value;
    assert Floor(run[k].store, token) <= Floor(run[k].store, generation.value);
  }

  // ---- a dirty isolate ----

  /** Calls of a dirty isolate that began after the head reached r carry nothing older than r. */
  predicate NothingOlder(frame: Frame, r: Revision) {
    match frame
    case LoadHead(_, _, cached, _) => cached.None?
    case LoadRepository(_, _, cached, _, revision) => cached.None? && r <= revision
    case PublishChunks(pub, _) => r <= pub.snapshot.revision
    case PublishGeneration(pub) => r <= pub.snapshot.revision
    case PublishPreCheck(pub) => r <= pub.snapshot.revision
    case PublishPointer(pub) => r <= pub.snapshot.revision
    case PublishPostCheck(pub) => r <= pub.snapshot.revision
    case RecoverSnapshot(pub, _, _) => r <= pub.snapshot.revision
    case CleanupGeneration(pub, _) => r <= pub.snapshot.revision
    case CleanupSnapshot(pub, _, _) => r <= pub.snapshot.revision
    case CleanupDelete(pub, _) => r <= pub.snapshot.revision
    case LoadDone(_, _, result) => result.Loaded? ==> r <= result.snapshot.revision
    case _ => true
  }

  predicate CarriesNothingOlder(task: Task, r: Revision) {
    && NothingOlder(task.frame, r)
    && (task.frame.LoadHead? && task.inbox.Some? && task.inbox.value.1.HeadIs? ==> r <= task.inbox.value.1.revision)
  }

  lemma ResumeNothingOlder(cfg: Config, id: CallId, task: Task, isolate: Isolate, r: Revision)
    requires CarriesNothingOlder(task, r) && task.inbox.Some? && isolate.invalidated
    ensures NothingOlder(Resume(cfg, id, task.frame, task.inbox.value.0, task.inbox.value.1, isolate).frame, r)
  {}

  lemma StepNothingOlder(cfg: Config, s: State, s': State, id: CallId, r: Revision)
    requires Next(cfg, s, s') && r <= Head(s.store)
    requires id in s.tasks ==> CarriesNothingOlder(s.tasks[id], r) && IsolateOf(s, s.tasks[id].isolate).invalidated
    ensures id in s'.tasks ==> CarriesNothingOlder(s'.tasks[id], r)
    ensures id in s.tasks ==> id in s'.tasks && s'.tasks[id].isolate == s.tasks[id].isolate
  {
    var step :| Enabled(cfg, s, step) && s' == Take(cfg, s, step);
    if step == Continue(id) {
      ResumeNothingOlder(cfg, id, s.tasks[id], IsolateOf(s, s.tasks[id].isolate), r);
    }
  }

  lemma {:induction false} RunNothingOlder(cfg: Config, run: seq<State>, i: nat, k: nat, id: CallId, home: IsolateId)
    requires IsRun(cfg, run) && i <= k < |run|
    requires forall m :: i <= m <= k ==> IsolateOf(run[m], home).invalidated
    requires id !in run[i].tasks && id in run[k].tasks && run[k].tasks[id].isolate == home
    ensures CarriesNothingOlder(run[k].tasks[id], Head(run[i].store))
    decreases k
  {
    assert StepAt(cfg, run, k - 1);
    RunLater(cfg, run, i, k - 1);
    if id in run[k - 1].tasks {
      TaskKeepsIsolate(cfg, run[k - 1], run[k], id);
      RunNothingOlder(cfg, run, i, k - 1, id, home);
    }
    StepNothingOlder(cfg, run[k - 1], run[k], id, Head(run[i].store));
  }

  lemma TaskKeepsIsolate(cfg: Config, s: State, s': State, id: CallId)
    requires Next(cfg, s, s') && id in s.tasks
    ensures id in s'.tasks && s'.tasks[id].isolate == s.tasks[id].isolate
  {}

  /** An isolate that could not tell the store about its invalidation still obeys it: for as long as it
      stays dirty, its new loads never answer with anything older than the head at that time, even when
      every KV write and every read of the generation key fails. */
  lemma DirtyIsolateReadsHead(
      cfg: Config, run: seq<State>, i: nat, k: nat, home: IsolateId,
      id: CallId, call: Call, generation: GenerationRead, result: LoadResult)
    requires IsRun(cfg, run) && i <= k < |run|
    requires forall m :: i <= m <= k ==> IsolateOf(run[m], home).invalidated
    requires id !in run[i].tasks
    requires Returned(run[k], id, call, generation, result) && run[k].tasks[id].isolate == home
    requires result.Loaded?
    ensures Head(run[i].store) <= result.snapshot.revision
  {
    RunNothingOlder(cfg, run, i, k, id, home);
  }

  predicate VerifiedAt(task: Task, home: IsolateId) {
    && task.isolate == home && task.frame.PublishPostCheck?
    && task.inbox.Some? && task.inbox.value.1 == HeadIs(task.frame.pub.snapshot.revision)
  }

  lemma ResumeCleans(cfg: Config, id: CallId, task: Task, isolate: Isolate)
    requires task.inbox.Some? && isolate.invalidated
    requires !Resume(cfg, id, task.frame, task.inbox.value.0, task.inbox.value.1, isolate).isolate.invalidated
    ensures VerifiedAt(task, task.isolate)
  {}

  /** Only a publication of that isolate whose post-publication check found its own revision at the
      head ends the dirty state. */
  lemma OnlyVerifiedPublicationCleans(cfg: Config, s: State, s': State, home: IsolateId)
    requires Next(cfg, s, s')
    requires IsolateOf(s, home).invalidated && !IsolateOf(s', home).invalidated
    ensures exists id :: id in s.tasks && VerifiedAt(s.tasks[id], home)
  {
    var step :| Enabled(cfg, s, step) && s' == Take(cfg, s, step);
    assert step.Continue? && s.tasks[step.id].isolate == home;
    ResumeCleans(cfg, step.id, s.tasks[step.id], IsolateOf(s, home));
  }

  // ---- a verified publication ----

  predicate PointsAt(s: State, id: CallId, token: Token, snapshot: Snapshot) {
    && s.store.pointer.Some?
    && s.store.pointer.value.publication == id && s.store.pointer.value.generation == token
    && s.store.pointer.value.revision == snapshot.revision && s.store.pointer.value.refreshedAt == snapshot.refreshedAt
  }

  /** The four things that happen, in this order, before a publication counts as published. */
  ghost predicate Milestone(cfg: Config, s: State, id: CallId, token: Token, snapshot: Snapshot, level: nat) {
    if level == 0 then CurrentToken(s.store) == token && HasChunks(cfg, s, snapshot.revision)
    else if level == 1 then Head(s.store) == snapshot.revision
    else if level == 2 then PointsAt(s, id, token, snapshot)
    else Head(s.store) == snapshot.revision
  }

  /** How many milestones a call has behind it, given its frame and the reply it is about to read. */
  function LevelOf(task: Task): int {
    match task.frame
    case PublishGeneration(pub) =>
      if task.inbox == Some((GetGeneration, GenerationIs(pub.generation.value))) then 1 else 0
    case PublishPreCheck(pub) => if task.inbox == Some((GetHead, HeadIs(pub.snapshot.revision))) then 2 else 1
    case PublishPointer(_) => if task.inbox.Some? && task.inbox.value.1.Written? then 3 else 2
    case PublishPostCheck(pub) => if task.inbox == Some((GetHead, HeadIs(pub.snapshot.revision))) then 4 else 3
    case LoadDone(_, _, result) => if result.Loaded? && result.publish == Some(Published) then 4 else 0
    case _ => 0
  }

  /** The token and snapshot being published, wherever a milestone has been passed. */
  function SubjectOf(task: Task): (Token, Snapshot) {
    match task.frame
    case PublishGeneration(pub) => (pub.generation.value, pub.snapshot)
    case PublishPreCheck(pub) => (pub.generation.value, pub.snapshot)
    case PublishPointer(pub) => (pub.generation.value, pub.snapshot)
    case PublishPostCheck(pub) => (pub.generation.value, pub.snapshot)
    case LoadDone(_, generation, result) =>
      (generation.value, if result.Loaded? then result.snapshot else Snapshot(0, 0, []))
    case _ => (0, Snapshot(0, 0, []))
  }

  /** Milestones 0 to count - 1 were passed in order, at instants up to k. */
  ghost predicate Passed(cfg: Config, run: seq<State>, k: nat, id: CallId, token: Token, snapshot: Snapshot, count: nat)
    requires k < |run|
    decreases count
  {
    count > 0 ==>
      exists m: nat :: m <= k && Milestone(cfg, run[m], id, token, snapshot, count - 1) &&
                       Passed(cfg, run, m, id, token, snapshot, count - 1)
  }

  lemma {:induction false} PassedLess(
      cfg: Config, run: seq<State>, j: nat, k: nat, id: CallId, token: Token, snapshot: Snapshot, count: nat, less: nat)
    requires j <= k < |run| && less <= count && Passed(cfg, run, j, id, token, snapshot, count)
    ensures Passed(cfg, run, k, id, token, snapshot, less)
    decreases count
  {
    if count > 0 {
      var m: nat :| m <= j && Milestone(cfg, run[m], id, token, snapshot, count - 1) &&
                    Passed(cfg, run, m, id, token, snapshot, count - 1);
      if less < count {
        PassedLess(cfg, run, m, k, id, token, snapshot, count - 1, less);
      }
    }
  }

  lemma ResumeLevel(cfg: Config, id: CallId, task: Task, isolate: Isolate)
    requires task.inbox.Some? && Asks(cfg, id, task.frame, task.inbox.value.0)
    ensures
      var resumed := Resume(cfg, id, task.frame, task.inbox.value.0, task.inbox.value.1, isolate);
      var next := Task(task.isolate, resumed.frame, None);
      LevelOf(next) > 0 ==> LevelOf(next) <= LevelOf(task) && SubjectOf(next) == SubjectOf(task)
  {}

  lemma ServeLevel(cfg: Config, s: State, id: CallId, request: Request, reply: Reply, s': State)
    requires Inv(cfg, s)
    requires Enabled(cfg, s, Serve(id, request, reply)) && s' == Take(cfg, s, Serve(id, request, reply))
    ensures SubjectOf(s'.tasks[id]) == SubjectOf(s.tasks[id])
    ensures LevelOf(s'.tasks[id]) <= LevelOf(s.tasks[id]) ||
      (LevelOf(s'.tasks[id]) == LevelOf(s.tasks[id]) + 1 &&
       Milestone(cfg, s', id, SubjectOf(s.tasks[id]).0, SubjectOf(s.tasks[id]).1, LevelOf(s.tasks[id])))
  {
    assert TaskOk(cfg, s, id, s.tasks[id]);
    if s.tasks[id].frame.PublishGeneration? {
      assert s'.store == s.store;
      var r := SubjectOf(s.tasks[id]).1.revision;
      assert forall i: nat :: HasChunk(s, r, i) ==> HasChunk(s', r, i);
    }
  }

  ghost predicate ProgressOk(cfg: Config, run: seq<State>, k: nat, id: CallId)
    requires k < |run| && id in run[k].tasks
  {
    var (token, snapshot) := SubjectOf(run[k].tasks[id]);
    LevelOf(run[k].tasks[id]) > 0 ==> Passed(cfg, run, k, id, token, snapshot, LevelOf(run[k].tasks[id]))
  }

  /** How one step changes the progress of one call. */
  ghost predicate Advances(cfg: Config, s: State, s': State, id: CallId)
    requires id in s'.tasks
  {
    LevelOf(s'.tasks[id]) > 0 ==>
      && id in s.tasks && SubjectOf(s'.tasks[id]) == SubjectOf(s.tasks[id])
      && (|| LevelOf(s'.tasks[id]) <= LevelOf(s.tasks[id])
          || (&& LevelOf(s'.tasks[id]) == LevelOf(s.tasks[id]) + 1
              && Milestone(cfg, s', id, SubjectOf(s.tasks[id]).0, SubjectOf(s.tasks[id]).1, LevelOf(s.tasks[id]))))
  }

  /** A step that is not the call's own leaves the call where it is. */
  lemma OtherSteps(cfg: Config, s: State, step: Step, s': State, id: CallId)
    requires Enabled(cfg, s, step) && s' == Take(cfg, s, step) && id in s'.tasks
    requires !(step.Serve? && step.id == id) && step != Continue(id)
    ensures if id in s.tasks then s'.tasks[id] == s.tasks[id] else LevelOf(s'.tasks[id]) == 0
  {}

  lemma StepAdvances(cfg: Config, s: State, step: Step, s': State, id: CallId)
    requires Inv(cfg, s) && Enabled(cfg, s, step) && s' == Take(cfg, s, step) && id in s'.tasks
    ensures Advances(cfg, s, s', id)
  {
    if step.Serve? && step.id == id {
      ServeLevel(cfg, s, id, step.request, step.reply, s');
    } else if step == Continue(id) {
      assert TaskOk(cfg, s, id, s.tasks[id]);
      ResumeLevel(cfg, id, s.tasks[id], IsolateOf(s, s.tasks[id].isolate));
    } else {
      OtherSteps(cfg, s, step, s', id);
    }
  }

  lemma RunAdvances(cfg: Config, run: seq<State>, k: nat, id: CallId)
    requires IsRun(cfg, run) && k + 1 < |run| && id in run[k + 1].tasks
    ensures Advances(cfg, run[k], run[k + 1], id)
  {
    RunKeeps(cfg, run, k);
    assert StepAt(cfg, run, k);
    var step :| Enabled(cfg, run[k], step) && run[k + 1] == Take(cfg, run[k], step);
    StepAdvances(cfg, run[k], step, run[k + 1], id);
  }

  lemma {:induction false} RunProgress(cfg: Config, run: seq<State>, k: nat, id: CallId)
    requires IsRun(cfg, run) && k < |run| && id in run[k].tasks
    ensures ProgressOk(cfg, run, k, id)
    decreases k
  {
    if k > 0 {
      RunAdvances(cfg, run, k - 1, id);
      var count := LevelOf(run[k].tasks[id]);
      if count > 0 {
        RunProgress(cfg, run, k - 1, id);
        var before := LevelOf(run[k - 1].tasks[id]);
        var (token, snapshot) := SubjectOf(run[k].tasks[id]);
        if count <= before {
          PassedLess(cfg, run, k - 1, k, id, token, snapshot, before, count);
        } else if before > 0 {
          PassedLess(cfg, run, k - 1, k, id, token, snapshot, before, before);
        }
      }
    }
  }

  /** A load that reports its publication as published did it in order: all its chunks stored with the
      generation still the one it started from, then its revision at the head, then its own pointer in
      the store, then its revision at the head again. */
  lemma PublishedMeansVerified(
      cfg: Config, run: seq<State>, k: nat, id: CallId, call: Call, generation: GenerationRead, result: LoadResult)
      returns (a: nat, b: nat, c: nat, d: nat)
    requires IsRun(cfg, run) && k < |run|
    requires Returned(run[k], id, call, generation, result)
    requires result.Loaded? && result.publish == Some(Published)
    ensures a <= b <= c <= d <= k
    ensures CurrentToken(run[a].store) == generation.value && HasChunks(cfg, run[a], result.snapshot.revision)
    ensures Head(run[b].store) == result.snapshot.revision
    ensures PointsAt(run[c], id, generation.value, result.snapshot)
    ensures Head(run[d].store) == result.snapshot.revision
  {
    RunProgress(cfg, run, k, id);
    d := LastMilestone(cfg, run, k, id, generation.value, result.snapshot, 4);
    c := LastMilestone(cfg, run, d, id, generation.value, result.snapshot, 3);
    b := LastMilestone(cfg, run, c, id, generation.value, result.snapshot, 2);
    a := LastMilestone(cfg, run, b, id, generation.value, result.snapshot, 1);
  }

  lemma LastMilestone(cfg: Config, run: seq<State>, k: nat, id: CallId, token: Token, snapshot: Snapshot, count: nat)
      returns (m: nat)
    requires k < |run| && count > 0 && Passed(cfg, run, k, id, token, snapshot, count)
    ensures m <= k && Milestone(cfg, run[m], id, token, snapshot, count - 1)
    ensures Passed(cfg, run, m, id, token, snapshot, count - 1)
  {
    m :| m <= k && Milestone(cfg, run[m], id, token, snapshot, count - 1) &&
      Passed(cfg, run, m, id, token, snapshot, count - 1);
  }
}
