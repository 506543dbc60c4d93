/** Artifact writes against a concurrent server: `create`, `update`, `delete` and `writeContents` of
    lib/artifact-repository.ts:369-394, 405-446 and 470-480, with `validateImmutableArtifactMetadata` (128-132).

    A writer reads one tree and later sends one request that names the blob it expects. Any number of writers
    interleave; a request may be applied and still reported as failed. A blob's sha stands for its content. */
module OptimisticWrites {
  import opened Options
  import opened RepositoryLayout

  datatype Identity = Identity(id: string, kind: string, sourceId: Option<string>, createdAt: Option<string>)

  /** A file that parses as an artifact, or one that does not. */
  datatype Content = Markdown(identity: Identity, text: string) | Unreadable(raw: string)

  type Files = map<string, Content>

  datatype Operation =
    | Create(identity: Identity, text: string)
    | Update(id: string, identity: Identity, text: string, expected: Content)
    | Delete(id: string, expected: Content)

  /** The request a writer will send, and what the server must find at the path for it to apply. */
  datatype Request = Request(path: string, expected: Option<Content>, content: Option<Content>)

  datatype Phase =
    | Reading(operation: Operation)
    | Sending(operation: Operation, request: Request)
    | Refused
    | Succeeded(operation: Operation, request: Request)
    | Failed

  datatype State = State(files: Files, writers: map<nat, Phase>)

  // ---- reading the tree ----

  predicate IsArtifactFile(path: string) { IsArtifactMarkdownCandidate(path) }

  /** `artifactsFromTree` does not throw: every candidate is in a safe place and parses, and no id repeats. */
  ghost predicate Readable(files: Files) {
    && (forall p :: p in files && IsArtifactFile(p) ==> Classified(p) && files[p].Markdown?)
    && UniqueIds(files)
  }

  ghost predicate UniqueIds(files: Files) {
    forall p, q :: HoldsSameId(files, p, q) ==> p == q
  }

  predicate HoldsSameId(files: Files, p: string, q: string) {
    && p in files && q in files && IsArtifactFile(p) && IsArtifactFile(q)
    && files[p].Markdown? && files[q].Markdown? && files[p].identity.id == files[q].identity.id
  }

  predicate HoldsId(files: Files, path: string, id: string) {
    path in files && IsArtifactFile(path) && files[path].Markdown? && files[path].identity.id == id
  }

  /** `canonicalArtifactWritePath` */
  function CanonicalPath(identity: Identity): Option<string> {
    var directory := if identity.kind == "prompt" then Some("prompts")
      else if identity.kind == "snippet" then Some("snippets")
      else if identity.kind == "template" then Some("templates")
      else if identity.kind == "app-idea" then Some("app-ideas")
      else None;
    if directory.None? then None else Some(directory.value + "/" + identity.id + ".md")
  }

  /** Everything a writer does between reading the tree and sending; `None` when it throws. */
  ghost function Prepare(files: Files, operation: Operation): Option<Request> {
    if !Readable(files) then None
    else match operation
      case Create(identity, text) =>
        var path := CanonicalPath(identity);
        if path.None? || path.value in files || (exists p :: HoldsId(files, p, identity.id)) then None
        else Some(Request(path.value, None, Some(Markdown(identity, text))))
      case Update(id, identity, text, expected) =>
        if identity.id != id || !(exists p :: HoldsId(files, p, id)) then None
        else
          var path :| HoldsId(files, path, id);
          if files[path] != expected || !IsSupportedArtifactPath(path) || files[path].identity != identity then None
          else Some(Request(path, Some(expected), Some(Markdown(identity, text))))
      case Delete(id, expected) =>
        if !(exists p :: HoldsId(files, p, id)) then None
        else
          var path :| HoldsId(files, path, id);
          if files[path] != expected || !IsSupportedArtifactPath(path) then None
          else Some(Request(path, Some(expected), None))
  }

  // ---- the server ----

  /** The contents API applies a write only to the blob it names, or to an empty path when it names none. */
  predicate Applies(files: Files, request: Request) {
    if request.expected.Some? then request.path in files && files[request.path] == request.expected.value
    else request.path !in files
  }

  function Applied(files: Files, request: Request): Files {
    if request.content.Some? then files[request.path := request.content.value] else files - {request.path}
  }

  // ---- the system ----

  datatype Step = Begin(w: nat, operation: Operation) | Read(w: nat) | Send(w: nat, delivered: bool, reported: bool)

  ghost predicate Enabled(s: State, step: Step) {
    match step
    case Begin(w, _) => w !in s.writers
    case Read(w) => w in s.writers && s.writers[w].Reading?
    case Send(w, delivered, reported) => w in s.writers && s.writers[w].Sending? && (reported ==> delivered)
  }

  /** A delivered request that applies changes the files; success is only ever reported for one of those. */
  ghost function Take(s: State, step: Step): State
    requires Enabled(s, step)
  {
    match step
    case Begin(w, operation) => s.(writers := s.writers[w := Reading(operation)])
    case Read(w) =>
      var operation := s.writers[w].operation;
      var prepared := Prepare(s.files, operation);
      s.(writers := s.writers[w := if prepared.Some? then Sending(operation, prepared.value) else Refused])
    case Send(w, delivered, reported) =>
      var operation, request := s.writers[w].operation, s.writers[w].request;
      var applies := delivered && Applies(s.files, request);
      State(if applies then Applied(s.files, request) else s.files,
            s.writers[w := if applies && reported then Succeeded(operation, request) else Failed])
  }

  ghost predicate IsStep(run: seq<State>, steps: seq<Step>, k: nat)
    requires k < |steps| < |run|
  {
    Enabled(run[k], steps[k]) && run[k + 1] == Take(run[k], steps[k])
  }

  ghost predicate IsRun(run: seq<State>, steps: seq<Step>) {
    && |run| == |steps| + 1 && run[0].writers == map[]
    && forall k: nat :: k < |steps| ==> IsStep(run, steps, k)
  }

  // ---- what every step keeps ----

  /** An update in flight carries the identity of the very blob it will replace. */
  predicate RequestOk(operation: Operation, request: Request) {
    match operation
    case Create(identity, text) =>
      request.expected.None? && request.content == Some(Markdown(identity, text)) &&
      CanonicalPath(identity) == Some(request.path)
    case Update(id, identity, text, expected) =>
      && request.expected == Some(expected) && request.content == Some(Markdown(identity, text))
      && expected.Markdown? && expected.identity == identity && identity.id == id
    case Delete(id, expected) =>
      request.expected == Some(expected) && request.content.None? && expected.Markdown? && expected.identity.id == id
  }

  ghost predicate Inv(s: State) {
    forall w :: w in s.writers && (s.writers[w].Sending? || s.writers[w].Succeeded?) ==>
      RequestOk(s.writers[w].operation, s.writers[w].request)
  }

  lemma PrepareOk(files: Files, operation: Operation)
    requires Prepare(files, operation).Some?
    ensures RequestOk(operation, Prepare(files, operation).value)
  {}

  lemma StepKeeps(s: State, step: Step)
    requires Inv(s) && Enabled(s, step)
    ensures Inv(Take(s, step))
  {
    if step.Read? && Prepare(s.files, s.writers[step.w].operation).Some? {
      PrepareOk(s.files, s.writers[step.w].operation);
    }
  }

  lemma {:induction false} RunKeeps(run: seq<State>, steps: seq<Step>, k: nat)
    requires IsRun(run, steps) && k < |run|
    ensures Inv(run[k])
  {
    if k > 0 {
      RunKeeps(run, steps, k - 1);
      assert IsStep(run, steps, k - 1);
      StepKeeps(run[k - 1], steps[k - 1]);
    }
  }

  // ---- no lost update ----

  /** In one step, some request of operation `operation` took effect. */
  ghost predicate TookEffect(s: State, s': State, operation: Operation, request: Request) {
    Applies(s.files, request) && s'.files == Applied(s.files, request) && RequestOk(operation, request)
  }

  lemma {:induction false} SuccessTookEffect(run: seq<State>, steps: seq<Step>, k: nat, w: nat) returns (m: nat)
    requires IsRun(run, steps) && k < |run| && w in run[k].writers && run[k].writers[w].Succeeded?
    ensures m < k && TookEffect(run[m], run[m + 1], run[k].writers[w].operation, run[k].writers[w].request)
  {
    assert IsStep(run, steps, k - 1);
    RunKeeps(run, steps, k);
    if w in run[k - 1].writers && run[k - 1].writers[w] == run[k].writers[w] {
      m := SuccessTookEffect(run, steps, k - 1, w);
    } else {
      m := k - 1;
    }
  }

  /** Every update that reports success replaced exactly the blob its caller named: at one instant the file
      held that blob, and at the next it held the caller's content, everything else untouched. */
  lemma UpdateReplacesNamedBlob(
      run: seq<State>, steps: seq<Step>, k: nat, w: nat, operation: Operation, request: Request)
      returns (m: nat)
    requires IsRun(run, steps) && k < |run| && w in run[k].writers && run[k].writers[w] == Succeeded(operation, request)
    requires operation.Update?
    ensures m < k
    ensures request.path in run[m].files && run[m].files[request.path] == operation.expected
    ensures run[m + 1].files == run[m].files[request.path := Markdown(operation.identity, operation.text)]
    ensures operation.expected.Markdown? && operation.expected.identity == operation.identity
  {
    m := SuccessTookEffect(run, steps, k, w);
  }

  lemma StepKeepsIdentity(s: State, step: Step, path: string)
    requires Inv(s) && Enabled(s, step)
    requires path in s.files && path in Take(s, step).files && s.files[path].Markdown?
    ensures Take(s, step).files[path].Markdown? && Take(s, step).files[path].identity == s.files[path].identity
  {
    if step.Send? {
      assert RequestOk(s.writers[step.w].operation, s.writers[step.w].request);
    }
  }

  /** Between its creation and its deletion, the id, type, source and creation time at a path never change. */
  lemma {:induction false} IdentityNeverChanges(run: seq<State>, steps: seq<Step>, i: nat, j: nat, path: string)
    requires IsRun(run, steps) && i <= j < |run|
    requires forall k :: i <= k <= j ==> path in run[k].files
    requires run[i].files[path].Markdown?
    ensures run[j].files[path].Markdown? && run[j].files[path].identity == run[i].files[path].identity
    decreases j
  {
    if i < j {
      IdentityNeverChanges(run, steps, i, j - 1, path);
      RunKeeps(run, steps, j - 1);
      assert IsStep(run, steps, j - 1);
      StepKeepsIdentity(run[j - 1], steps[j - 1], path);
    }
  }

  // ---- a write that may go through does ----

  /** This is the request for the operation: a creation of an id nobody holds, at its free path; or an update or
      deletion of the very blob that holds the id, an update with its identity unchanged. */
  ghost predicate Sendable(files: Files, operation: Operation, request: Request) {
    match operation
    case Create(identity, text) =>
      && CanonicalPath(identity) == Some(request.path) && request.path !in files
      && (forall p :: !HoldsId(files, p, identity.id))
      && request.expected == None && request.content == Some(Markdown(identity, text))
    case Update(id, identity, text, expected) =>
      && HoldsId(files, request.path, id) && files[request.path] == expected && expected.identity == identity
      && request.expected == Some(expected) && request.content == Some(Markdown(identity, text))
    case Delete(id, expected) =>
      && HoldsId(files, request.path, id) && files[request.path] == expected
      && request.expected == Some(expected) && request.content == None
  }

  lemma HolderIsOnly(files: Files, p: string, q: string, id: string)
    requires Readable(files) && HoldsId(files, p, id) && HoldsId(files, q, id)
    ensures p == q && IsSupportedArtifactPath(p)
  {
    assert HoldsSameId(files, p, q);
    SupportedIsSafeCandidate(p);
  }

  /** From a readable tree a request is sent exactly when there is one for the operation, and it is that one; from an
      unreadable tree none is. */
  lemma SentIff(files: Files, operation: Operation, request: Request)
    ensures Prepare(files, operation) == Some(request) <==> Readable(files) && Sendable(files, operation, request)
  {
    match operation
    case Create(_, _) => CreateSentIff(files, operation, request);
    case Update(id, _, _, _) =>
      if p :| Readable(files) && HoldsId(files, p, id) { ChangeSentIff(files, operation, request, p); }
    case Delete(id, _) =>
      if p :| Readable(files) && HoldsId(files, p, id) { ChangeSentIff(files, operation, request, p); }
  }

  lemma CreateSentIff(files: Files, operation: Operation, request: Request)
    requires operation.Create?
    ensures Prepare(files, operation) == Some(request) <==> Readable(files) && Sendable(files, operation, request)
  {}

  lemma ChangeSentIff(files: Files, operation: Operation, request: Request, p: string)
    requires Readable(files) && !operation.Create? && HoldsId(files, p, operation.id)
    ensures Prepare(files, operation) == Some(request) <==> Sendable(files, operation, request)
  {
    forall q | HoldsId(files, q, operation.id) ensures q == p && IsSupportedArtifactPath(p) {
      HolderIsOnly(files, p, q, operation.id);
    }
  }

  lemma {:induction false} SendingUntilSent(run: seq<State>, steps: seq<Step>, i: nat, j: nat, w: nat)
    requires IsRun(run, steps) && i <= j < |run| && w in run[i].writers && run[i].writers[w].Sending?
    ensures w in run[j].writers
    ensures run[j].writers[w] == run[i].writers[w] || run[j].writers[w].Failed? || run[j].writers[w].Succeeded?
    decreases j
  {
    if i < j {
      SendingUntilSent(run, steps, i, j - 1, w);
      assert IsStep(run, steps, j - 1);
    }
  }

  /** The file is as the operation expects it. */
  predicate StillThere(files: Files, operation: Operation, path: string) {
    match operation
    case Create(_, _) => path !in files
    case Update(_, _, _, expected) => path in files && files[path] == expected
    case Delete(_, expected) => path in files && files[path] == expected
  }

  /** The files with just what the operation asks for changed. */
  function Changed(files: Files, operation: Operation, path: string): Files {
    match operation
    case Create(identity, text) => files[path := Markdown(identity, text)]
    case Update(_, identity, text, _) => files[path := Markdown(identity, text)]
    case Delete(_, _) => files - {path}
  }

  lemma SendableApplies(seen: Files, files: Files, operation: Operation, request: Request)
    requires Sendable(seen, operation, request) && StillThere(files, operation, request.path)
    ensures Applies(files, request) && Applied(files, request) == Changed(files, operation, request.path)
  {}

  lemma ReadSends(run: seq<State>, steps: seq<Step>, i: nat, w: nat, operation: Operation, request: Request)
    requires IsRun(run, steps) && i < |steps| && steps[i] == Read(w)
    requires w in run[i].writers && run[i].writers[w] == Reading(operation)
    requires Readable(run[i].files) && Sendable(run[i].files, operation, request)
    ensures w in run[i + 1].writers && run[i + 1].writers[w] == Sending(operation, request)
  {
    assert IsStep(run, steps, i);
    SentIff(run[i].files, operation, request);
  }

  lemma SendSucceeds(
      run: seq<State>, steps: seq<Step>, i: nat, j: nat, w: nat, operation: Operation, request: Request)
    requires IsRun(run, steps) && i < j < |steps| && steps[j] == Send(w, true, true)
    requires w in run[i + 1].writers && run[i + 1].writers[w] == Sending(operation, request)
    requires Applies(run[j].files, request)
    requires Applied(run[j].files, request) == Changed(run[j].files, operation, request.path)
    ensures w in run[j + 1].writers && run[j + 1].writers[w] == Succeeded(operation, request)
    ensures run[j + 1].files == Changed(run[j].files, operation, request.path)
  {
    SendingUntilSent(run, steps, i + 1, j, w);
    assert IsStep(run, steps, j);
  }

  lemma SentAndStillThere(
      run: seq<State>, steps: seq<Step>, i: nat, j: nat, w: nat, operation: Operation, request: Request)
    requires IsRun(run, steps) && i < j < |steps| && steps[i] == Read(w)
    requires w in run[i].writers && run[i].writers[w] == Reading(operation)
    requires Readable(run[i].files) && Sendable(run[i].files, operation, request)
    requires StillThere(run[j].files, operation, request.path)
    ensures w in run[i + 1].writers && run[i + 1].writers[w] == Sending(operation, request)
    ensures Applies(run[j].files, request)
    ensures Applied(run[j].files, request) == Changed(run[j].files, operation, request.path)
  {
    ReadSends(run, steps, i, w, operation, request);
    SendableApplies(run[i].files, run[j].files, operation, request);
  }

  /** A write whose request there is when it reads the tree succeeds if the file is still as it expects when the
      request is delivered and the answer gets through, whatever others did in between; then it changes just that. */
  lemma WriteGoesThrough(
      run: seq<State>, steps: seq<Step>, i: nat, j: nat, w: nat, operation: Operation, request: Request)
    requires IsRun(run, steps) && i < j < |steps| && steps[i] == Read(w) && steps[j] == Send(w, true, true)
    requires w in run[i].writers && run[i].writers[w] == Reading(operation)
    requires Readable(run[i].files) && Sendable(run[i].files, operation, request)
    requires StillThere(run[j].files, operation, request.path)
    ensures w in run[j + 1].writers && run[j + 1].writers[w] == Succeeded(operation, request)
    ensures run[j + 1].files == Changed(run[j].files, operation, request.path)
  {
    SentAndStillThere(run, steps, i, j, w, operation, request);
    SendSucceeds(run, steps, i, j, w, operation, request);
  }

  // ---- what the compare-and-swap does not give ----

  /** Ids are checked against the tree that was read, paths against the server. So two creations of one id under
      two types, each of which would be accepted alone, can both succeed, and the id is then held twice. */
  lemma ConcurrentCreatesClash(s: State, a: Operation, b: Operation, v: nat, w: nat)
      returns (run: seq<State>, steps: seq<Step>)
    requires s.writers == map[] && v != w && a.Create? && b.Create? && a.identity.id == b.identity.id
    requires Prepare(s.files, a).Some? && Prepare(s.files, b).Some?
    requires CanonicalPath(a.identity) != CanonicalPath(b.identity)
    ensures IsRun(run, steps) && run[0] == s
    ensures
      var files, p, q := run[|run| - 1].files, CanonicalPath(a.identity).value, CanonicalPath(b.identity).value;
      && p != q && p in files && q in files
      && files[p] == Markdown(a.identity, a.text) && files[q] == Markdown(b.identity, b.text)
  {
    steps := [Begin(v, a), Begin(w, b), Read(v), Read(w), Send(v, true, true), Send(w, true, true)];
    var s1 := Take(s, steps[0]);
    var s2 := Take(s1, steps[1]);
    var s3 := Take(s2, steps[2]);
    var s4 := Take(s3, steps[3]);
    var s5 := Take(s4, steps[4]);
    var s6 := Take(s5, steps[5]);
    run := [s, s1, s2, s3, s4, s5, s6];
    assert IsStep(run, steps, 0) && IsStep(run, steps, 1) && IsStep(run, steps, 2);
    assert IsStep(run, steps, 3) && IsStep(run, steps, 4) && IsStep(run, steps, 5);
  }

  lemma CanonicalPathIsCandidate(identity: Identity)
    requires CanonicalPath(identity).Some?
    ensures IsArtifactFile(CanonicalPath(identity).value)
  {
    var path := CanonicalPath(identity).value;
    var directory :| directory in DIRECTORIES && path == directory + "/" + identity.id + ".md";
    CanonicalForm(directory, identity.id);
  }

  lemma CanonicalForm(directory: string, id: string)
    requires directory in DIRECTORIES
    ensures IsArtifactMarkdownCandidate(directory + "/" + id + ".md")
  {
    var path := directory + "/" + id + ".md";
    var forward := Forward(path);
    assert forward[0] == directory[0];
    assert Normalized(path) == forward;
    assert forward[|forward| - 3..] == ".md";
    assert forward[..|directory| + 1] == directory + "/";
  }

  /** A creation that the server applies keeps the ids unique exactly when no artifact holds its id. */
  lemma CreateKeepsUnique(files: Files, identity: Identity, text: string)
    requires UniqueIds(files) && CanonicalPath(identity).Some? && CanonicalPath(identity).value !in files
    ensures UniqueIds(files[CanonicalPath(identity).value := Markdown(identity, text)]) <==>
      !exists p :: HoldsId(files, p, identity.id)
  {
    var path := CanonicalPath(identity).value;
    var after := files[path := Markdown(identity, text)];
    CanonicalPathIsCandidate(identity);
    if p :| HoldsId(files, p, identity.id) {
      assert HoldsSameId(after, p, path);
    } else {
      forall p, q | HoldsSameId(after, p, q) ensures p == q {
        assert p != path ==> HoldsId(files, p, after[p].identity.id);
        assert q != path ==> HoldsId(files, q, after[q].identity.id);
        assert p != path && q != path ==> HoldsSameId(files, p, q);
      }
    }
  }

  // ---- which schedules break the uniqueness of ids ----

  /** Step k applies a request of the writer. */
  ghost predicate AppliedAt(run: seq<State>, steps: seq<Step>, k: nat)
    requires k < |steps| < |run|
  {
    && steps[k].Send? && steps[k].delivered && steps[k].w in run[k].writers && run[k].writers[steps[k].w].Sending?
    && Applies(run[k].files, run[k].writers[steps[k].w].request)
  }

  /** Step k creates an artifact with this id at this path. */
  ghost predicate CreatesAt(run: seq<State>, steps: seq<Step>, k: nat, id: string, path: string)
    requires k < |steps| < |run|
  {
    && AppliedAt(run, steps, k)
    && var writer := run[k].writers[steps[k].w];
       writer.operation.Create? && writer.operation.identity.id == id && writer.request.path == path
  }

  ghost predicate DeletesAt(run: seq<State>, steps: seq<Step>, k: nat, path: string)
    requires k < |steps| < |run|
  {
    && AppliedAt(run, steps, k)
    && var writer := run[k].writers[steps[k].w];
       writer.operation.Delete? && writer.request.path == path
  }

  /** Between its reading the tree (r) and its request (m), a creation is overtaken by another creation (n) of the
      same id at another path, which is not deleted again before m. */
  ghost predicate Overtaken(
      run: seq<State>, steps: seq<Step>, r: nat, n: nat, m: nat, id: string, path: string, other: string)
    requires |steps| < |run|
  {
    && r < n < m < |steps| && path != other
    && CreatesAt(run, steps, m, id, path) && steps[r] == Read(steps[m].w)
    && CreatesAt(run, steps, n, id, other)
    && forall k: nat :: n < k < m ==> !DeletesAt(run, steps, k, other)
  }

  /** A request in flight was made by its writer's reading of the tree. */
  lemma {:induction false} FindRead(run: seq<State>, steps: seq<Step>, k: nat, w: nat) returns (r: nat)
    requires IsRun(run, steps) && k < |run| && w in run[k].writers && run[k].writers[w].Sending?
    ensures r < k && steps[r] == Read(w)
    ensures Prepare(run[r].files, run[k].writers[w].operation) == Some(run[k].writers[w].request)
  {
    assert IsStep(run, steps, k - 1);
    if w in run[k - 1].writers && run[k - 1].writers[w] == run[k].writers[w] {
      r := FindRead(run, steps, k - 1, w);
    } else {
      r := k - 1;
    }
  }

  /** Only a creation brings an id to a path. */
  lemma StepBringsId(run: seq<State>, steps: seq<Step>, k: nat, path: string, id: string)
    requires IsRun(run, steps) && k < |steps|
    requires !HoldsId(run[k].files, path, id) && HoldsId(run[k + 1].files, path, id)
    ensures CreatesAt(run, steps, k, id, path)
  {
    assert IsStep(run, steps, k);
    RunKeeps(run, steps, k);
    assert run[k + 1].files != run[k].files;
    assert RequestOk(run[k].writers[steps[k].w].operation, run[k].writers[steps[k].w].request);
  }

  /** Only a deletion takes it away. */
  lemma StepKeepsId(run: seq<State>, steps: seq<Step>, k: nat, path: string, id: string)
    requires IsRun(run, steps) && k < |steps| && HoldsId(run[k].files, path, id)
    ensures HoldsId(run[k + 1].files, path, id) <==> !DeletesAt(run, steps, k, path)
  {
    assert IsStep(run, steps, k);
    RunKeeps(run, steps, k);
    if run[k + 1].files != run[k].files {
      assert RequestOk(run[k].writers[steps[k].w].operation, run[k].writers[steps[k].w].request);
    }
  }

  lemma {:induction false} FindCreation(run: seq<State>, steps: seq<Step>, r: nat, m: nat, path: string, id: string)
      returns (n: nat)
    requires IsRun(run, steps) && r <= m < |run| && !HoldsId(run[r].files, path, id) && HoldsId(run[m].files, path, id)
    ensures r <= n < m && CreatesAt(run, steps, n, id, path)
    ensures forall k: nat :: n < k < m ==> !DeletesAt(run, steps, k, path)
    decreases m
  {
    if HoldsId(run[m - 1].files, path, id) {
      n := FindCreation(run, steps, r, m - 1, path, id);
      StepKeepsId(run, steps, m - 1, path, id);
    } else {
      n := m - 1;
      StepBringsId(run, steps, n, path, id);
    }
  }

  lemma {:induction false} CreationStays(run: seq<State>, steps: seq<Step>, n: nat, m: nat, path: string, id: string)
    requires IsRun(run, steps) && n < m < |run| && CreatesAt(run, steps, n, id, path)
    requires forall k: nat :: n < k < m ==> !DeletesAt(run, steps, k, path)
    ensures HoldsId(run[m].files, path, id)
    decreases m
  {
    if n + 1 < m {
      CreationStays(run, steps, n, m - 1, path, id);
      StepKeepsId(run, steps, m - 1, path, id);
    } else {
      assert IsStep(run, steps, n);
      RunKeeps(run, steps, n);
      CanonicalPathIsCandidate(run[n].writers[steps[n].w].operation.identity);
    }
  }

  /** A creation whose id is held elsewhere when its request is applied was overtaken. */
  lemma CreationIsOvertaken(run: seq<State>, steps: seq<Step>, m: nat, id: string, path: string, other: string)
    requires IsRun(run, steps) && m < |steps| && CreatesAt(run, steps, m, id, path) && HoldsId(run[m].files, other, id)
    ensures exists r: nat, n: nat :: Overtaken(run, steps, r, n, m, id, path, other)
  {
    var r := FindRead(run, steps, m, steps[m].w);
    RunKeeps(run, steps, m);
    assert !HoldsId(run[r].files, other, id);
    var n := FindCreation(run, steps, r, m, other, id);
    assert Overtaken(run, steps, r, n, m, id, path, other);
  }

  /** Updates and deletions never make an id clash. */
  lemma OthersKeepUnique(files: Files, operation: Operation, request: Request)
    requires UniqueIds(files) && Applies(files, request) && RequestOk(operation, request) && !operation.Create?
    ensures UniqueIds(Applied(files, request))
  {
    forall p, q | HoldsSameId(Applied(files, request), p, q) ensures p == q { assert HoldsSameId(files, p, q); }
  }

  /** A step that ends the uniqueness of ids creates an artifact whose id is held elsewhere. */
  lemma ClashIsCreation(run: seq<State>, steps: seq<Step>, m: nat) returns (id: string, path: string, other: string)
    requires IsRun(run, steps) && m < |steps| && UniqueIds(run[m].files) && !UniqueIds(run[m + 1].files)
    ensures CreatesAt(run, steps, m, id, path) && HoldsId(run[m].files, other, id)
  {
    assert IsStep(run, steps, m);
    RunKeeps(run, steps, m);
    var files, writer := run[m].files, run[m].writers[steps[m].w];
    assert AppliedAt(run, steps, m) && RequestOk(writer.operation, writer.request);
    if !writer.operation.Create? { OthersKeepUnique(files, writer.operation, writer.request); }
    CreateKeepsUnique(files, writer.operation.identity, writer.operation.text);
    id, path := writer.operation.identity.id, writer.request.path;
    other :| HoldsId(files, other, id);
  }

  /** Starting from unique ids, ids stay unique through the whole run exactly when no applied creation was
      overtaken by one of the same id between its reading of the tree and its request. */
  lemma IdsStayUniqueIff(run: seq<State>, steps: seq<Step>)
    requires IsRun(run, steps) && UniqueIds(run[0].files)
    ensures (forall k: nat :: k < |run| ==> UniqueIds(run[k].files)) <==>
      !exists r: nat, n: nat, m: nat, id, path, other :: Overtaken(run, steps, r, n, m, id, path, other)
  {
    if r: nat, n: nat, m: nat, id, path, other :| Overtaken(run, steps, r, n, m, id, path, other) {
      CreationStays(run, steps, n, m, other, id);
      CreationStays(run, steps, m, m + 1, path, id);
      StepKeepsId(run, steps, m, other, id);
      assert HoldsSameId(run[m + 1].files, path, other);
    } else {
      forall k: nat | k < |run| ensures UniqueIds(run[k].files) { UniqueUnlessOvertaken(run, steps, k); }
    }
  }

  lemma {:induction false} UniqueUnlessOvertaken(run: seq<State>, steps: seq<Step>, k: nat)
    requires IsRun(run, steps) && UniqueIds(run[0].files) && k < |run|
    requires !exists r: nat, n: nat, m: nat, id, path, other :: Overtaken(run, steps, r, n, m, id, path, other)
    ensures UniqueIds(run[k].files)
  {
    if k > 0 {
      UniqueUnlessOvertaken(run, steps, k - 1);
      if !UniqueIds(run[k].files) {
        var id, path, other := ClashIsCreation(run, steps, k - 1);
        CreationIsOvertaken(run, steps, k - 1, id, path, other);
      }
    }
  }
}
