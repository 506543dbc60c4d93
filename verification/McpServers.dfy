/** MCP server definitions in Git and their credential bindings in the vault: the compensating updates of
    lib/mcp-tool-service.ts. */
module McpServers {
  import opened Options
  import opened CredentialVault
  import opened DefinitionIds

  datatype Auth = NoAuth | Bearer(secret: SecretId)
  datatype Definition = Definition(id: ServerId, name: string, endpoint: Endpoint, auth: Auth, tools: seq<string>)
  datatype Versioned = Versioned(definition: Definition, sha: nat)

  type Files = map<ServerId, Versioned>

  // ---- mcpServerDefinitionSchema (lib/tool-definitions.ts:4-7) ----

  const MAX_NAME := 120
  const MAX_URL := 2048
  const MAX_TOKEN := 8192

  function Trim(s: string): string { TrimEnd(TrimStart(s)) }

  /** What the schema makes of a definition: its name is trimmed. `None` when the schema refuses it. */
  function Parsed(definition: Definition): Option<Definition> {
    var name := Trim(definition.name);
    if ValidId(definition.id) && |definition.id| <= MAX_LENGTH && 1 <= |name| <= MAX_NAME
       && definition.endpoint.href.Some? && |definition.endpoint.url| <= MAX_URL
    then Some(definition.(name := name)) else None
  }

  /** What has been parsed once parses again to itself, so a stored definition can be put back as it was. */
  lemma ParsedIsStable(definition: Definition)
    requires Parsed(definition).Some?
    ensures Parsed(Parsed(definition).value) == Parsed(definition)
  {
    TrimStartTrims(definition.name);
    TrimEndTrims(TrimStart(definition.name));
  }

  // ---- the definition files ----

  /** The compare-and-swap of an update finds what it expects, and the schema accepts the definition. */
  predicate CanUpdate(files: Files, definition: Definition, sha: nat) {
    Parsed(definition).Some? && definition.id in files && files[definition.id].sha == sha
  }

  /** Only the file of one server changes. */
  predicate FileOnly(id: ServerId, before: Files, after: Files) { after - {id} == before - {id} }

  class ToolRepository {
    const shared: bool
    /** What each call does: any call may throw, before or after it took effect. */
    const faults: nat -> Fault
    var calls: nat
    var files: Files
    var nextSha: nat

    constructor (shared: bool, faults: nat -> Fault, files: Files, nextSha: nat)
      requires Sound(files, nextSha)
      ensures Valid() && this.files == files && calls == 0 && this.shared == shared && this.faults == faults
    {
      this.shared, this.faults, calls := shared, faults, 0;
      this.files, this.nextSha := files, nextSha;
    }

    static predicate Sound(files: Files, nextSha: nat) {
      && (forall id :: id in files ==> files[id].definition.id == id)
      && (forall file :: file in files.Values ==>
            file.sha < nextSha && Parsed(file.definition) == Some(file.definition))
    }

    predicate Valid() reads this { Sound(files, nextSha) }

    method Interfere()
      requires Valid()
      modifies this`files, this`nextSha
      ensures Valid()
      ensures !shared ==> files == old(files) && nextSha == old(nextSha)
    {
      if shared {
        var f: Files, n: nat := *, *;
        if Sound(f, n) { files, nextSha := f, n; }
      }
    }

    method Get(id: ServerId) returns (r: Option<Option<Versioned>>)
      requires Valid()
      modifies this
      ensures Valid() && calls == old(calls) + 1
      ensures !shared ==> files == old(files)
      ensures r.Some? ==> r.value == if id in files then Some(files[id]) else None
      ensures r.Some? && r.value.Some? ==> Parsed(r.value.value.definition) == Some(r.value.value.definition)
      ensures faults(old(calls)) == Works ==> r.Some?
    {
      Interfere();
      var fault := faults(calls);
      calls := calls + 1;
      r := if fault == Works then Some(if id in files then Some(files[id]) else None) else None;
      assert id in files ==> files[id] in files.Values;
    }

    /** Compare-and-swap on the file's sha, of what the schema makes of the definition. */
    method Update(definition: Definition, sha: nat) returns (r: Option<Versioned>)
      requires Valid()
      modifies this
      ensures Valid() && calls == old(calls) + 1
      ensures r.Some? ==> Parsed(definition) == Some(r.value.definition)
      ensures !shared ==> (r.Some? <==> CanUpdate(old(files), definition, sha) && faults(old(calls)) == Works)
      ensures !shared && r.Some? ==> files == old(files)[definition.id := r.value]
      ensures !shared && CanUpdate(old(files), definition, sha) && faults(old(calls)) != ThrowsBefore ==>
        && definition.id in files && Parsed(definition) == Some(files[definition.id].definition)
        && files == old(files)[definition.id := files[definition.id]]
      ensures !shared && !(CanUpdate(old(files), definition, sha) && faults(old(calls)) != ThrowsBefore) ==>
        files == old(files)
    {
      Interfere();
      var fault := faults(calls);
      calls := calls + 1;
      if !CanUpdate(files, definition, sha) || fault == ThrowsBefore { return None; }
      ParsedIsStable(definition);
      var saved := Versioned(Parsed(definition).value, nextSha);
      files, nextSha := files[definition.id := saved], nextSha + 1;
      r := if fault == Works then Some(saved) else None;
    }

    method Create(definition: Definition) returns (r: Option<Versioned>)
      requires Valid()
      modifies this
      ensures Valid() && calls == old(calls) + 1
      ensures r.Some? ==> Parsed(definition) == Some(r.value.definition)
      ensures !shared ==> FileOnly(definition.id, old(files), files)
      ensures !shared ==>
        (r.Some? <==> Parsed(definition).Some? && definition.id !in old(files) && faults(old(calls)) == Works)
      ensures !shared && r.Some? ==> files == old(files)[definition.id := r.value]
      ensures !shared && r.None? && faults(old(calls)) != ThrowsAfter ==> files == old(files)
      ensures !shared && r.None? ==>
        || files == old(files)
        || (&& definition.id !in old(files) && definition.id in files
            && Parsed(definition) == Some(files[definition.id].definition)
            && files == old(files)[definition.id := files[definition.id]])
    {
      Interfere();
      var fault := faults(calls);
      calls := calls + 1;
      var parsed := Parsed(definition);
      if parsed.None? || definition.id in files || fault == ThrowsBefore { return None; }
      ParsedIsStable(definition);
      var saved := Versioned(parsed.value, nextSha);
      files, nextSha := files[definition.id := saved], nextSha + 1;
      r := if fault == Works then Some(saved) else None;
    }

    method Delete(id: ServerId, sha: nat) returns (ok: bool)
      requires Valid()
      modifies this
      ensures Valid() && calls == old(calls) + 1
      ensures !shared ==> FileOnly(id, old(files), files)
      ensures !shared ==> (ok <==> id in old(files) && old(files)[id].sha == sha && faults(old(calls)) == Works)
      ensures !shared ==>
        files == if id in old(files) && old(files)[id].sha == sha && faults(old(calls)) != ThrowsBefore
                 then old(files) - {id} else old(files)
    {
      Interfere();
      var fault := faults(calls);
      calls := calls + 1;
      if id !in files || files[id].sha != sha || fault == ThrowsBefore { return false; }
      files := files - {id};
      ok := fault == Works;
    }
  }

  // ---- what the two stores say ----

  /** Git and the vault say the same about a server. */
  predicate Agrees(repository: RepositoryId, definition: Definition, t: Tables) {
    match definition.auth
    case NoAuth => (repository, definition.id) !in t.rows
    case Bearer(secret) => RowSays(repository, definition, t) && secret in t.secrets
  }

  /** The row of a bearer server is the one its definition asks for. */
  predicate RowSays(repository: RepositoryId, definition: Definition, t: Tables)
    requires definition.auth.Bearer?
  {
    && (repository, definition.id) in t.rows
    && Some(t.rows[(repository, definition.id)].target) == definition.endpoint.href
    && t.rows[(repository, definition.id)].secret == definition.auth.secret
  }

  /** The definition gives access to nothing: it names no secret, or one that is gone (or one whose
      deletion was tried and threw). */
  predicate FailsClosed(definition: Definition, t: Tables, lost: set<SecretId>) {
    definition.auth.Bearer? && definition.auth.secret in t.secrets ==> definition.auth.secret in lost
  }

  /** No secret is live that was not live before, except one whose insert or delete threw. */
  predicate NoNewSecret(before: Tables, after: Tables, lost: set<SecretId>) {
    forall s :: s in after.secrets ==> s in before.secrets || s in lost
  }

  /** The server's own row is as before, or was put where there was none, for its definition. */
  predicate OwnRowKept(repository: RepositoryId, definition: Definition, before: Tables, after: Tables) {
    var key := (repository, definition.id);
    if key in before.rows then key in after.rows && after.rows[key] == before.rows[key]
    else key in after.rows ==>
      && Some(after.rows[key].target) == definition.endpoint.href
      && definition.auth == Bearer(after.rows[key].secret)
  }

  /** A binding that was there is still there under its id, so tools frozen with that id still resolve. */
  predicate KeepsId(key: Key, before: Tables, after: Tables) {
    key in before.rows ==> key in after.rows && after.rows[key].id == before.rows[key].id
  }

  function SecretOf(auth: Auth): Option<SecretId> { if auth.Bearer? then Some(auth.secret) else None }

  predicate Alone(repo: ToolRepository, vault: Vault) {
    !repo.shared && !vault.shared
  }

  /** At most one of these calls to the database threw, and this call to Git works. */
  ghost predicate Calm(repo: ToolRepository, vault: Vault, from: nat, until: nat, call: nat) {
    vault.OneThrew(from, until) && repo.faults(call) == Works
  }

  datatype Input = Input(id: ServerId, name: string, endpoint: Endpoint, bearer: bool, token: Option<string>)

  predicate HasToken(input: Input) { input.token.Some? && Trim(input.token.value) != [] }

  // ---- what updateMcpServer leaves behind ----

  /** How `updateMcpServer` ended: the definition was saved; it threw before writing anything to Git; the
      Git write threw; or the binding transition threw and was compensated, as far as the two flags say. */
  datatype UpdateOutcome =
    | Saved(saved: Versioned)
    | ThrewBefore
    | WriteThrew
    | Compensated(authorityRestored: bool, gitRestored: bool)

  /** The old definition with the requested name, endpoint and kind of credential. */
  predicate IsRequested(input: Input, was: Definition, now: Definition) {
    && now == was.(name := Trim(input.name), endpoint := input.endpoint, auth := now.auth)
    && (now.auth.Bearer? <==> input.bearer)
  }

  /** The only secret that may be new is the one the definition names; if the request brought a token it is
      new, and is the token. Without one the old credential is kept. */
  predicate NamesItsSecret(input: Input, was: Definition, now: Definition, before: Tables, after: Tables) {
    && (forall s :: s in after.secrets ==> s in before.secrets || now.auth == Bearer(s))
    && (if input.bearer && HasToken(input) then
          && now.auth.Bearer? && now.auth.secret !in before.secrets
          && now.auth.secret in after.secrets && after.secrets[now.auth.secret] == input.token.value
        else now.auth == if input.bearer then was.auth else NoAuth)
  }

  /** The new definition is in Git although the write threw. A secret made for it is retired. A secret taken over
      from the old definition is live and still bound to the old endpoint, so the stores disagree just when the
      request changed the trust target. */
  predicate NewInGit(
      repository: RepositoryId, input: Input, was: Definition, now: Definition, after: Tables, lost: set<SecretId>)
  {
    if input.bearer && was.auth.Bearer? && !HasToken(input) then
      && now.auth == was.auth && now.auth.secret in after.secrets && Agrees(repository, was, after)
      && (Agrees(repository, now, after) <==> now.endpoint.href == was.endpoint.href)
    else FailsClosed(now, after, lost)
  }

  /** An update that threw before it wrote anything: nothing has changed, except that the binding of the definition may
      have been put where there was none, and a secret whose insert threw may be there. */
  predicate NotBegun(
      repository: RepositoryId, input: Input, oldFiles: Files, files: Files, before: Tables, after: Tables,
      lost: set<SecretId>)
  {
    && files == oldFiles && NoNewSecret(before, after, lost) && Framed((repository, input.id), before, after, {})
    && (if input.id in files then OwnRowKept(repository, files[input.id].definition, before, after)
        else after.rows == before.rows)
  }

  /** What an update leaves behind when nobody else is at work, whichever calls threw. Nothing of any other server
      changes, except for rows that use a secret this server named and that is retired.
      - Saved: the file had the expected sha, Git holds the new definition and the vault agrees with it, provided a
        server that had no credential had no binding either; while the URL stays the same, so does the binding's id,
        whatever becomes of the secret; a secret that is no longer named is retired, and no
        secret is new but the one now named.
      - Otherwise no new secret is live.
      - The Git write threw: the binding still agrees with the old definition; Git holds that or the new one.
      - After a compensation Git holds the old definition or one that fails closed, and if both halves were
        restored the stores agree again. They are both restored if it was `calm`: if only the transition threw. */
  predicate UpdateIsRight(
      repository: RepositoryId, input: Input, sha: nat, r: UpdateOutcome, oldFiles: Files, files: Files,
      before: Tables, after: Tables, oldLost: set<SecretId>, lost: set<SecretId>, calm: bool)
  {
    var key := (repository, input.id);
    if r.ThrewBefore? then NotBegun(repository, input, oldFiles, files, before, after, lost)
    else
      && input.id in oldFiles && input.id in files && files == oldFiles[input.id := files[input.id]]
      && var was, now := oldFiles[input.id].definition, files[input.id].definition;
         var soundBefore := was.auth.NoAuth? ==> Agrees(repository, was, before);
         match r
         case Saved(saved) =>
           && oldFiles[input.id].sha == sha && files[input.id] == saved && IsRequested(input, was, now)
           && NamesItsSecret(input, was, now, before, after)
           && (soundBefore ==> Agrees(repository, now, after))
           && (was.auth.Bearer? && now.auth.Bearer? && was.endpoint == now.endpoint ==> KeepsId(key, before, after))
           && (was.auth != now.auth ==> FailsClosed(was, after, lost))
           && Framed(key, before, after, if was.auth != now.auth then SetOf(SecretOf(was.auth)) else {})
         case WriteThrew =>
           && NoNewSecret(before, after, lost) && Framed(key, before, after, {})
           && (now == was || (IsRequested(input, was, now) && NewInGit(repository, input, was, now, after, lost)))
           && (soundBefore ==> Agrees(repository, was, after))
           && (!(input.bearer && HasToken(input)) ==> lost == oldLost)
         case Compensated(authorityRestored, gitRestored) =>
           && NoNewSecret(before, after, lost)
           && Framed(key, before, after, if gitRestored then {} else SetOf(SecretOf(was.auth)))
           && (now == was || FailsClosed(now, after, lost))
           && (authorityRestored && gitRestored ==>
                 now == was && (soundBefore && lost == oldLost ==>
                                  Agrees(repository, now, after) && KeepsId(key, before, after)))
           && (calm && soundBefore ==> authorityRestored && gitRestored && lost == oldLost)
         case ThrewBefore => true
  }

  /** When nothing throws, an update of this server with this request is saved. */
  predicate CanSave(repository: RepositoryId, input: Input, sha: nat, files: Files, t: Tables) {
    && CanPrepare(repository, input, files, t)
    && var was := files[input.id].definition;
       && CanUpdate(files, was.(name := input.name, endpoint := input.endpoint), sha)
       && (was.auth.NoAuth? && input.bearer ==> (repository, input.id) !in t.rows)
  }

  predicate CanPrepare(repository: RepositoryId, input: Input, files: Files, t: Tables) {
    && input.id in files
    && var was := files[input.id].definition;
       && (was.auth.Bearer? ==> CanEnsure((repository, input.id), was.endpoint, was.auth.secret, t))
       && (input.bearer ==> HasToken(input) || was.auth.Bearer?)
  }

  // ---- updateMcpServer (lib/mcp-tool-service.ts:18-32) ----

  /** The old definition and its binding id, the credential of the new definition, the candidate secret created
      for it and the secret it makes obsolete. */
  datatype Prepared = Prepared(
    current: Definition, binding: BindingId, auth: Auth, candidate: Option<SecretId>, obsolete: Option<SecretId>)

  /** The definition to write. */
  function NextOf(input: Input, p: Prepared): Definition {
    p.current.(name := input.name, endpoint := input.endpoint, auth := p.auth)
  }

  lemma NextIsRequested(input: Input, p: Prepared, files: Files, sha: nat)
    requires ChosenFor(input, p)
    ensures CanUpdate(files, NextOf(input, p), sha) <==>
      CanUpdate(files, p.current.(name := input.name, endpoint := input.endpoint), sha)
    ensures Parsed(NextOf(input, p)).Some? ==>
      && IsRequested(input, p.current, Parsed(NextOf(input, p)).value)
      && Parsed(NextOf(input, p)).value.auth == p.auth && Parsed(NextOf(input, p)).value.endpoint.href.Some?
  {}

  predicate ChosenFor(input: Input, p: Prepared) {
    && p.current.id == input.id && Parsed(p.current) == Some(p.current)
    && (p.auth.Bearer? <==> input.bearer)
    && (p.candidate.Some? <==> input.bearer && HasToken(input))
    && (p.candidate.Some? ==> p.auth == Bearer(p.candidate.value))
    && (p.candidate.None? && input.bearer ==> p.auth == p.current.auth)
    && p.obsolete == (if p.current.auth.Bearer? && (p.candidate.Some? || !input.bearer)
                      then Some(p.current.auth.secret) else None)
  }

  /** The binding of the old definition is there, and the candidate secret is live and not the old one. */
  predicate Bound(repository: RepositoryId, p: Prepared, t: Tables, lost: set<SecretId>) {
    && (p.current.auth.Bearer? ==>
          Agrees(repository, p.current, t) && t.rows[(repository, p.current.id)].id == p.binding)
    && (p.candidate.Some? ==>
          p.candidate.value in t.secrets && p.candidate.value !in lost && p.current.auth != p.auth)
  }

  /** The stores once the update has been prepared: nothing else has changed, and the candidate secret, if any, is
      new and holds the token. */
  predicate Ready(
      repository: RepositoryId, input: Input, p: Prepared, before: Tables, t: Tables, lost: set<SecretId>)
  {
    var key := (repository, p.current.id);
    && Framed(key, before, t, {}) && OwnRowKept(repository, p.current, before, t)
    && (forall s :: s in t.secrets ==> s in before.secrets || Some(s) == p.candidate)
    && Bound(repository, p, t, lost) && (p.current.auth.NoAuth? ==> t.rows == before.rows)
    && (p.candidate.Some? ==>
          && p.candidate.value !in before.secrets
          && input.token.Some? && t.secrets[p.candidate.value] == input.token.value)
  }

  /** One more secret, or none. */
  predicate Added(before: Tables, after: Tables, secret: Option<SecretId>, token: Option<string>) {
    if secret.None? then after == before
    else
      && secret.value !in before.secrets && token.Some?
      && after == before.(secrets := before.secrets[secret.value := token.value])
  }

  method ChooseCredential(vault: Vault, input: Input, current: Definition, binding: BindingId)
      returns (r: Option<Prepared>, ghost added: Option<SecretId>)
    requires vault.Valid() && current.id == input.id && Parsed(current) == Some(current)
    modifies vault
    ensures vault.Valid() && old(vault.history) <= vault.history && old(vault.lost) <= vault.lost
    ensures old(vault.calls) <= vault.calls
    ensures !vault.shared ==> Added(old(vault.tables), vault.tables, added, input.token)
    ensures r.None? ==> added.Some? ==> added.value in vault.lost
    ensures r.Some? ==>
      && ChosenFor(input, r.value) && r.value.current == current && r.value.binding == binding
      && added == r.value.candidate && vault.lost == old(vault.lost) && (added.Some? ==> added.value !in vault.lost)
    ensures vault.Worked(old(vault.calls), vault.calls) ==>
      (r.Some? <==> (input.bearer ==> HasToken(input) || current.auth.Bearer?))
  {
    added := None;
    var obsolete := if current.auth.Bearer? then Some(current.auth.secret) else None;
    if !input.bearer {
      r := Some(Prepared(current, binding, NoAuth, None, obsolete));
    } else if !HasToken(input) {
      r := if current.auth.Bearer? then Some(Prepared(current, binding, current.auth, None, None)) else None;
    } else {
      var candidate;
      candidate, added := CreateSecret(vault, input.token.value);
      r := if candidate.None? then None
           else Some(Prepared(current, binding, Bearer(candidate.value), candidate, obsolete));
    }
  }

  /** Read the old definition, make sure its binding is there, choose the new credential. */
  method Prepare(repository: RepositoryId, input: Input, repo: ToolRepository, vault: Vault)
      returns (r: Option<Prepared>)
    requires repo.Valid() && vault.Valid()
    modifies repo, vault
    ensures repo.Valid() && vault.Valid() && old(vault.history) <= vault.history && repo.calls == old(repo.calls) + 1
    ensures old(vault.calls) <= vault.calls
    ensures Alone(repo, vault) ==> repo.files == old(repo.files)
    ensures Alone(repo, vault) && r.None? ==>
      NotBegun(repository, input, old(repo.files), repo.files, old(vault.tables), vault.tables, vault.lost)
    ensures r.Some? ==>
      && ChosenFor(input, r.value)
      && (r.value.current.auth.Bearer? ==>
            Seen(vault.history, r.value.binding, r.value.current.endpoint.href.value))
    ensures Alone(repo, vault) && r.Some? ==>
      && input.id in repo.files && repo.files[input.id].definition == r.value.current
      && vault.lost == old(vault.lost)
      && Ready(repository, input, r.value, old(vault.tables), vault.tables, vault.lost)
    ensures Alone(repo, vault) && vault.Worked(old(vault.calls), vault.calls) ==>
      repo.faults(old(repo.calls)) == Works ==>
      (r.Some? <==> CanPrepare(repository, input, old(repo.files), old(vault.tables)))
  {
    var got := repo.Get(input.id);
    if got.None? || got.value.None? {
      RowOnlyFrames((repository, input.id), vault.tables, vault.tables);
      return None;
    }
    var current := got.value.value.definition;
    var binding := Rebind(repository, current, vault);
    ghost var bound := vault.tables;
    if binding.None? {
      if Alone(repo, vault) { RowOnlyFrames((repository, input.id), old(vault.tables), bound); }
      return None;
    }
    ghost var bindings := vault.history;
    ghost var added;
    r, added := ChooseCredential(vault, input, current, binding.value);
    if r.Some? && current.auth.Bearer? {
      SeenStays(bindings, vault.history, binding.value, current.endpoint.href.value);
    }
    if Alone(repo, vault) {
      AddedFrames((repository, input.id), old(vault.tables), bound, vault.tables, added, input.token);
      if r.Some? { BecomesReady(repository, input, r.value, old(vault.tables), bound, vault.tables, vault.lost); }
    }
  }

  /** The binding id of a stored definition, if it needs one. */
  method Rebind(repository: RepositoryId, current: Definition, vault: Vault) returns (r: Option<BindingId>)
    requires vault.Valid()
    modifies vault
    ensures vault.Valid() && old(vault.history) <= vault.history
    ensures old(vault.calls) <= vault.calls
    ensures vault.lost == old(vault.lost) && vault.secretThrows == old(vault.secretThrows)
    ensures r.Some? && current.auth.Bearer? ==>
      current.endpoint.href.Some? && Seen(vault.history, r.value, current.endpoint.href.value)
    ensures !vault.shared ==>
      && RowOnly((repository, current.id), old(vault.tables), vault.tables)
      && OwnRowKept(repository, current, old(vault.tables), vault.tables)
    ensures !vault.shared && r.Some? && current.auth.Bearer? ==>
      Agrees(repository, current, vault.tables) && vault.tables.rows[(repository, current.id)].id == r.value
    ensures !vault.shared && current.auth.NoAuth? ==> vault.tables == old(vault.tables)
    ensures !vault.shared && vault.Worked(old(vault.calls), vault.calls) ==>
      (r.Some? <==>
        (current.auth.Bearer? ==>
          CanEnsure((repository, current.id), current.endpoint, current.auth.secret, old(vault.tables))))
  {
    if current.auth.NoAuth? { return Some(0); }
    r := vault.Ensure(repository, current.id, current.endpoint, current.auth.secret);
  }

  lemma AddedFrames(
      key: Key, before: Tables, bound: Tables, after: Tables, added: Option<SecretId>, token: Option<string>)
    requires RowOnly(key, before, bound) && Added(bound, after, added, token)
    ensures Framed(key, before, after, {}) && after.rows == bound.rows
    ensures forall s :: s in after.secrets ==> s in before.secrets || Some(s) == added
    ensures added.Some? ==> added.value !in before.secrets && after.secrets[added.value] == token.value
  {
    RowOnlyFrames(key, before, bound);
  }

  lemma BecomesReady(
      repository: RepositoryId, input: Input, p: Prepared, before: Tables, bound: Tables, t: Tables,
      lost: set<SecretId>)
    requires ChosenFor(input, p) && RowOnly((repository, input.id), before, bound)
    requires Added(bound, t, p.candidate, input.token) && OwnRowKept(repository, p.current, before, bound)
    requires p.current.auth.Bearer? ==>
      Agrees(repository, p.current, bound) && bound.rows[(repository, input.id)].id == p.binding
    requires p.current.auth.NoAuth? ==> bound == before
    requires p.candidate.Some? ==> p.candidate.value !in lost
    ensures Ready(repository, input, p, before, t, lost)
  {
    AddedFrames((repository, input.id), before, bound, t, p.candidate, input.token);
  }

  /** The binding follows the definition that was just saved. */
  method Transition(repository: RepositoryId, vault: Vault, current: Definition, next: Definition, binding: BindingId)
      returns (ok: bool)
    requires vault.Valid() && current.id == next.id
    modifies vault
    ensures vault.Valid() && old(vault.history) <= vault.history
    ensures old(vault.calls) <= vault.calls
    ensures vault.lost == old(vault.lost) && vault.secretThrows == old(vault.secretThrows)
    ensures !vault.shared ==>
      RowOnly((repository, current.id), old(vault.tables), vault.tables)
    ensures !vault.shared && ok && next.auth.Bearer? && next.auth.secret in old(vault.tables).secrets &&
      (current.auth == next.auth && current.endpoint == next.endpoint
       ==> Agrees(repository, current, old(vault.tables)))
      ==> Agrees(repository, next, vault.tables)
    ensures !vault.shared && ok && next.auth.NoAuth? ==>
      (current.auth.NoAuth? ==> Agrees(repository, current, old(vault.tables)))
      ==> Agrees(repository, next, vault.tables)
    ensures !vault.shared && !ok && current.auth.NoAuth? && (repository, current.id) in vault.tables.rows ==>
      || (repository, current.id) in old(vault.tables).rows
      || next.auth == Bearer(vault.tables.rows[(repository, current.id)].secret)
    ensures !vault.shared && ok && current.auth.Bearer? && next.auth.Bearer? && current.endpoint == next.endpoint ==>
      KeepsId((repository, current.id), old(vault.tables), vault.tables)
    ensures !vault.shared && vault.Worked(old(vault.calls), vault.calls) ==>
      CanMove(repository, current, next, binding, old(vault.tables)) ==> ok
  {
    if current.auth.Bearer? && next.auth.Bearer? {
      if current.endpoint != next.endpoint {
        var replaced :=
          vault.Replace(repository, current.id, binding, current.endpoint, next.endpoint, next.auth.secret);
        ok := replaced.Some?;
      } else if next.auth.secret != current.auth.secret {
        ok := vault.Rotate(repository, current.id, binding, next.endpoint, next.auth.secret, current.auth.secret);
      } else {
        ok := true;
      }
    } else if current.auth.Bearer? {
      ok := vault.Revoke(repository, current.id, binding);
    } else if next.auth.Bearer? {
      var bound := vault.Ensure(repository, current.id, next.endpoint, next.auth.secret);
      ok := bound.Some?;
    } else {
      ok := true;
    }
  }

  /** The row is where the old definition says, or nowhere, and the new definition can be bound. */
  predicate CanMove(repository: RepositoryId, current: Definition, next: Definition, binding: BindingId, t: Tables) {
    var key := (repository, current.id);
    && (current.auth.Bearer? ==> Agrees(repository, current, t) && t.rows[key].id == binding)
    && (next.auth.Bearer? ==> next.endpoint.href.Some? && next.auth.secret in t.secrets)
    && (current.auth.NoAuth? && next.auth.Bearer? ==> key !in t.rows)
  }

  /** Nothing stands in the way of the old binding. */
  predicate CanRestore(repository: RepositoryId, current: Definition, binding: BindingId, t: Tables)
    requires current.auth.Bearer?
  {
    current.auth.secret in t.secrets && IdFree(t, (repository, current.id), binding)
  }

  /** If the server has a binding at all, it is to the candidate secret. */
  predicate BoundOnlyTo(repository: RepositoryId, server: ServerId, t: Tables, candidate: Option<SecretId>) {
    (repository, server) in t.rows ==> candidate == Some(t.rows[(repository, server)].secret)
  }

  /** The catch block: put the binding and the file back, then retire the secrets that must not survive. */
  method Compensate(
      repository: RepositoryId, repo: ToolRepository, vault: Vault, current: Definition, sha: nat,
      binding: BindingId, candidate: Option<SecretId>)
      returns (authorityRestored: bool, gitRestored: bool, ghost restored: Tables)
    requires repo.Valid() && vault.Valid() && Parsed(current) == Some(current)
    requires current.auth.Bearer? ==> Seen(vault.history, binding, current.endpoint.href.value)
    modifies repo, vault
    ensures repo.Valid() && vault.Valid() && old(vault.history) <= vault.history && old(vault.lost) <= vault.lost
    ensures old(vault.calls) <= vault.calls
    ensures Alone(repo, vault) && current.id in old(repo.files) ==>
      && current.id in repo.files && repo.files == old(repo.files)[current.id := repo.files[current.id]]
      && (repo.files[current.id].definition == current || (!gitRestored && repo.files == old(repo.files)))
    ensures Alone(repo, vault) ==>
      && RowOnly((repository, current.id), old(vault.tables), restored)
      && Retired(restored, vault.tables, candidate, if gitRestored then None else SecretOf(current.auth))
      && (candidate.Some? && candidate.value in vault.tables.secrets ==> candidate.value in vault.lost)
      && (!gitRestored ==> FailsClosed(current, vault.tables, vault.lost))
    ensures Alone(repo, vault) ==>
      if current.auth.NoAuth? then restored == old(vault.tables)
      else authorityRestored ==>
        RowSays(repository, current, restored) && restored.rows[(repository, current.id)].id == binding
    ensures Alone(repo, vault) && current.id in old(repo.files) && old(repo.files)[current.id].sha == sha ==>
      (gitRestored <==> repo.faults(old(repo.calls)) == Works)
    ensures Alone(repo, vault) && vault.Worked(old(vault.calls), vault.calls) ==>
      && vault.lost == old(vault.lost)
      && (current.auth.Bearer? ==> CanRestore(repository, current, binding, old(vault.tables)) ==> authorityRestored)
      && (current.auth.NoAuth? ==> authorityRestored)
  {
    authorityRestored := true;
    if current.auth.Bearer? {
      authorityRestored := vault.Restore(repository, current.id, binding, current.endpoint, current.auth.secret);
    }
    restored := vault.tables;
    var updated := repo.Update(current, sha);
    gitRestored := updated.Some?;
    Retire(vault, candidate, if gitRestored then None else SecretOf(current.auth));
  }

  method Retire(vault: Vault, candidate: Option<SecretId>, other: Option<SecretId>)
    requires vault.Valid()
    modifies vault
    ensures vault.Valid() && old(vault.history) <= vault.history && old(vault.lost) <= vault.lost
    ensures old(vault.calls) <= vault.calls
    ensures !vault.shared && candidate.Some? && candidate.value in vault.tables.secrets ==>
      candidate.value in vault.lost
    ensures other.Some? && other.value in vault.tables.secrets ==> other.value in vault.lost
    ensures !vault.shared ==> Retired(old(vault.tables), vault.tables, candidate, other)
    ensures !vault.shared && other.None? ==>
      || (vault.tables == old(vault.tables) && (candidate.Some? ==> candidate.value in vault.lost))
      || (candidate.Some? && vault.tables == Without(old(vault.tables), candidate.value))
    ensures vault.Worked(old(vault.calls), vault.calls) ==> vault.lost == old(vault.lost)
  {
    vault.Cleanup(candidate);
    vault.Cleanup(other);
  }

  /** What settling leaves behind, starting from the new definition in Git and the candidate in the vault; `moved` is
      the vault before secrets were retired. */
  predicate SettledRight(
      repository: RepositoryId, current: Definition, saved: Versioned, candidate: Option<SecretId>, r: UpdateOutcome,
      oldFiles: Files, files: Files, before: Tables, moved: Tables, after: Tables, lost: set<SecretId>)
  {
    var soundBefore := current.auth.NoAuth? ==> Agrees(repository, current, before);
    && RowOnly((repository, current.id), before, moved)
    && (current.auth.Bearer? && (r.Compensated? ==> r.authorityRestored) ==>
          r.Compensated? || (saved.definition.auth.Bearer? && current.endpoint == saved.definition.endpoint) ==>
          KeepsId((repository, current.id), before, moved))
    && (r.Saved? ==>
          && files == oldFiles
          && Retired(moved, after, if current.auth != saved.definition.auth then SecretOf(current.auth) else None, None)
          && (soundBefore ==> Agrees(repository, saved.definition, moved))
          && (current.auth != saved.definition.auth ==> FailsClosed(current, after, lost)))
    && (r.Compensated? ==>
          && current.id in files && files == oldFiles[current.id := files[current.id]]
          && Retired(moved, after, candidate, if r.gitRestored then None else SecretOf(current.auth))
          && (candidate.Some? && candidate.value in after.secrets ==> candidate.value in lost)
          && (files[current.id].definition == current ||
              (!r.gitRestored && FailsClosed(files[current.id].definition, after, lost)))
          && (if current.auth.Bearer? then r.authorityRestored ==> RowSays(repository, current, moved)
              else soundBefore ==> BoundOnlyTo(repository, current.id, moved, candidate)))
  }

  /** After Git holds the new definition: move the binding, or compensate. */
  method Settle(
      repository: RepositoryId, input: Input, repo: ToolRepository, vault: Vault, p: Prepared, saved: Versioned,
      ghost before: Tables)
      returns (r: UpdateOutcome, ghost moved: Tables)
    requires repo.Valid() && vault.Valid() && ChosenFor(input, p)
    requires p.current.id == saved.definition.id && saved.definition.auth == p.auth
    requires p.current.auth.Bearer? ==> Seen(vault.history, p.binding, p.current.endpoint.href.value)
    requires Alone(repo, vault) ==>
      && p.current.id in repo.files && repo.files[p.current.id] == saved
      && Bound(repository, p, vault.tables, vault.lost)
    modifies repo, vault
    ensures repo.Valid() && vault.Valid() && old(vault.history) <= vault.history && old(vault.lost) <= vault.lost
    ensures old(vault.calls) <= vault.calls
    ensures r == Saved(saved) || r.Compensated?
    ensures Alone(repo, vault) ==>
      SettledRight(repository, p.current, saved, p.candidate, r, old(repo.files), repo.files,
                   old(vault.tables), moved, vault.tables, vault.lost)
    ensures Alone(repo, vault) && CanMove(repository, p.current, saved.definition, p.binding, old(vault.tables)) ==>
      && (vault.Worked(old(vault.calls), vault.calls) ==> r.Saved?)
      && (vault.OneThrew(old(vault.calls), vault.calls) && repo.faults(old(repo.calls)) == Works ==>
            r.Saved? || (r == Compensated(true, true) && vault.lost == old(vault.lost)))
  {
    var ok := Transition(repository, vault, p.current, saved.definition, p.binding);
    if !ok {
      if p.current.auth.Bearer? {
        SeenStays(old(vault.history), vault.history, p.binding, p.current.endpoint.href.value);
        if Alone(repo, vault) { OwnIdFree(old(vault.history), vault.tables, (repository, p.current.id)); }
      }
      ghost var failedAt := vault.calls;
      r, moved := Undo(repository, repo, vault, p, saved, old(vault.tables));
      if vault.OneThrew(old(vault.calls), vault.calls) && !vault.Worked(old(vault.calls), failedAt) {
        vault.RestWorked(old(vault.calls), failedAt, vault.calls);
      }
      return;
    }
    moved := vault.tables;
    if p.obsolete.Some? && saved.definition.auth != Bearer(p.obsolete.value) {
      vault.Cleanup(p.obsolete);
    }
    r := Saved(saved);
  }

  /** The transition threw; `before` is the vault before it. */
  method Undo(
      repository: RepositoryId, repo: ToolRepository, vault: Vault, p: Prepared, saved: Versioned, ghost before: Tables)
      returns (r: UpdateOutcome, ghost moved: Tables)
    requires repo.Valid() && vault.Valid() && Parsed(p.current) == Some(p.current)
    requires p.current.id == saved.definition.id && saved.definition.auth == p.auth
    requires p.candidate.Some? ==> p.auth == Bearer(p.candidate.value)
    requires p.candidate.None? && p.auth.Bearer? ==> p.auth == p.current.auth
    requires p.current.auth.Bearer? ==> Seen(vault.history, p.binding, p.current.endpoint.href.value)
    requires Alone(repo, vault) ==>
      && p.current.id in repo.files && repo.files[p.current.id] == saved
      && RowOnly((repository, p.current.id), before, vault.tables)
      && (p.current.auth.Bearer? ==>
            && CanRestore(repository, p.current, p.binding, vault.tables)
            && (repository, p.current.id) in before.rows && before.rows[(repository, p.current.id)].id == p.binding)
      && (p.current.auth.NoAuth? && Agrees(repository, p.current, before) ==>
            BoundOnlyTo(repository, p.current.id, vault.tables, p.candidate))
    modifies repo, vault
    ensures repo.Valid() && vault.Valid() && old(vault.history) <= vault.history && old(vault.lost) <= vault.lost
    ensures old(vault.calls) <= vault.calls
    ensures r.Compensated?
    ensures Alone(repo, vault) ==>
      SettledRight(repository, p.current, saved, p.candidate, r, old(repo.files), repo.files,
                   before, moved, vault.tables, vault.lost)
    ensures Alone(repo, vault) && vault.Worked(old(vault.calls), vault.calls) ==>
      && vault.lost == old(vault.lost) && r.authorityRestored
      && (repo.faults(old(repo.calls)) == Works ==> r.gitRestored)
  {
    var authorityRestored, gitRestored;
    authorityRestored, gitRestored, moved :=
      Compensate(repository, repo, vault, p.current, saved.sha, p.binding, p.candidate);
    r := Compensated(authorityRestored, gitRestored);
  }

  /** The write threw: the candidate is retired, whether or not Git holds the new definition. */
  method WriteFailed(
      repository: RepositoryId, input: Input, sha: nat, repo: ToolRepository, vault: Vault, p: Prepared,
      ghost before: Tables, ghost oldFiles: Files)
    requires vault.Valid() && ChosenFor(input, p) && Consistent(before)
    requires Alone(repo, vault) ==>
      && input.id in oldFiles && oldFiles[input.id].definition == p.current && input.id in repo.files
      && (repo.files == oldFiles ||
          (repo.files == oldFiles[input.id := repo.files[input.id]] &&
           IsRequested(input, p.current, repo.files[input.id].definition) &&
           repo.files[input.id].definition.auth == p.auth))
      && Ready(repository, input, p, before, vault.tables, vault.lost)
    modifies vault
    ensures vault.Valid() && old(vault.history) <= vault.history
    ensures old(vault.calls) <= vault.calls
    ensures Alone(repo, vault) ==>
      UpdateIsRight(repository, input, sha, WriteThrew, oldFiles, repo.files, before, vault.tables,
                    old(vault.lost), vault.lost, true)
  {
    vault.Cleanup(p.candidate);
    if Alone(repo, vault) {
      SettledFrame((repository, input.id), before, old(vault.tables), old(vault.tables), vault.tables,
                   p.candidate, None);
      if p.candidate.Some? { FramedWithout((repository, input.id), before, vault.tables, {}, p.candidate.value); }
    }
  }

  /** Write the new definition, then settle. The ghosts say how things were when the update began. */
  method Save(
      repository: RepositoryId, input: Input, sha: nat, repo: ToolRepository, vault: Vault, p: Prepared,
      ghost before: Tables, ghost oldFiles: Files, ghost oldLost: set<SecretId>, ghost began: nat, ghost last: nat)
      returns (r: UpdateOutcome)
    requires repo.Valid() && vault.Valid() && ChosenFor(input, p) && Consistent(before)
    requires began <= vault.calls && last == repo.calls + 1
    requires p.current.auth.Bearer? ==> Seen(vault.history, p.binding, p.current.endpoint.href.value)
    requires Alone(repo, vault) ==>
      && repo.files == oldFiles && vault.lost == oldLost
      && input.id in repo.files && repo.files[input.id].definition == p.current
      && Ready(repository, input, p, before, vault.tables, vault.lost)
    modifies repo, vault
    ensures repo.Valid() && vault.Valid() && old(vault.history) <= vault.history
    ensures old(vault.calls) <= vault.calls
    ensures !r.ThrewBefore?
    ensures Alone(repo, vault) ==>
      UpdateIsRight(repository, input, sha, r, oldFiles, repo.files, before, vault.tables, oldLost, vault.lost,
                    Calm(repo, vault, began, vault.calls, last))
    ensures Alone(repo, vault) && CanUpdate(oldFiles, NextOf(input, p), sha) ==>
      && (repo.faults(old(repo.calls)) == Works && vault.Worked(old(vault.calls), vault.calls) ==>
            (p.current.auth.NoAuth? && input.bearer ==> (repository, input.id) !in before.rows) ==> r.Saved?)
      && (repo.faults(old(repo.calls)) == ThrowsAfter ==>
            && r.WriteThrew? && input.id in repo.files
            && IsRequested(input, p.current, repo.files[input.id].definition))
  {
    NextIsRequested(input, p, repo.files, sha);
    var saved := repo.Update(NextOf(input, p), sha);
    assert repo.calls == old(repo.calls) + 1 && vault.calls == old(vault.calls);
    if saved.None? {
      WriteFailed(repository, input, sha, repo, vault, p, before, oldFiles);
      return WriteThrew;
    }
    if Alone(repo, vault) && (p.current.auth.NoAuth? && input.bearer ==> (repository, input.id) !in before.rows) {
      ReadyCanMove(repository, input, p, before, vault.tables, vault.lost, saved.value.definition);
    }
    r := Finish(repository, input, sha, repo, vault, p, saved.value, before, oldFiles, began, last);
  }

  lemma ReadyCanMove(
      repository: RepositoryId, input: Input, p: Prepared, before: Tables, t: Tables, lost: set<SecretId>,
      next: Definition)
    requires ChosenFor(input, p) && Ready(repository, input, p, before, t, lost)
    requires next.auth == p.auth && next.endpoint.href.Some?
    requires p.current.auth.NoAuth? && input.bearer ==> (repository, input.id) !in before.rows
    ensures CanMove(repository, p.current, next, p.binding, t)
  {}

  /** Settle, and what that means for the update as a whole. */
  method Finish(
      repository: RepositoryId, input: Input, sha: nat, repo: ToolRepository, vault: Vault, p: Prepared,
      saved: Versioned, ghost before: Tables, ghost oldFiles: Files, ghost began: nat, ghost last: nat)
      returns (r: UpdateOutcome)
    requires repo.Valid() && vault.Valid() && ChosenFor(input, p) && Consistent(before)
    requires IsRequested(input, p.current, saved.definition) && saved.definition.auth == p.auth
    requires saved.definition.endpoint.href.Some? && began <= vault.calls && last == repo.calls
    requires p.current.auth.Bearer? ==> Seen(vault.history, p.binding, p.current.endpoint.href.value)
    requires Alone(repo, vault) ==>
      && input.id in oldFiles && oldFiles[input.id].definition == p.current && oldFiles[input.id].sha == sha
      && repo.files == oldFiles[input.id := saved]
      && Ready(repository, input, p, before, vault.tables, vault.lost)
    modifies repo, vault
    ensures repo.Valid() && vault.Valid() && old(vault.history) <= vault.history
    ensures old(vault.calls) <= vault.calls
    ensures !r.ThrewBefore? && !r.WriteThrew?
    ensures Alone(repo, vault) ==>
      UpdateIsRight(repository, input, sha, r, oldFiles, repo.files, before, vault.tables, old(vault.lost), vault.lost,
                    Calm(repo, vault, began, vault.calls, last))
    ensures Alone(repo, vault) && vault.Worked(old(vault.calls), vault.calls) ==>
      CanMove(repository, p.current, saved.definition, p.binding, old(vault.tables)) ==> r.Saved?
  {
    ghost var moved;
    if Alone(repo, vault) && (p.current.auth.NoAuth? ==> Agrees(repository, p.current, before)) {
      ReadyCanMove(repository, input, p, before, vault.tables, vault.lost, saved.definition);
    }
    r, moved := Settle(repository, input, repo, vault, p, saved, before);
    if vault.OneThrew(began, vault.calls) { vault.OneThrewLater(began, old(vault.calls), vault.calls); }
    if Alone(repo, vault) {
      if r.Saved? {
        SavedIsRight(repository, input, sha, p, saved, r, oldFiles, repo.files,
                     before, old(vault.tables), moved, vault.tables, old(vault.lost), vault.lost);
      } else {
        CompensatedIsRight(repository, input, sha, p, saved, r, oldFiles, repo.files,
                           before, old(vault.tables), moved, vault.tables, old(vault.lost), vault.lost,
                           Calm(repo, vault, began, vault.calls, last));
      }
    }
  }

  lemma SavedIsRight(
      repository: RepositoryId, input: Input, sha: nat, p: Prepared, saved: Versioned, r: UpdateOutcome,
      oldFiles: Files, files: Files,
      before: Tables, prepared: Tables, moved: Tables, after: Tables, oldLost: set<SecretId>, lost: set<SecretId>)
    requires Consistent(before) && ChosenFor(input, p) && Ready(repository, input, p, before, prepared, oldLost)
    requires input.id in oldFiles && oldFiles[input.id].definition == p.current && oldFiles[input.id].sha == sha
    requires IsRequested(input, p.current, saved.definition) && saved.definition.auth == p.auth
    requires r == Saved(saved)
    requires SettledRight(repository, p.current, saved, p.candidate, r, oldFiles[input.id := saved], files,
                          prepared, moved, after, lost)
    ensures forall calm ::
      UpdateIsRight(repository, input, sha, r, oldFiles, files, before, after, oldLost, lost, calm)
  {
    var retired := if p.current.auth != p.auth then SecretOf(p.current.auth) else None;
    SettledFrame((repository, input.id), before, prepared, moved, after, retired, None);
    assert SetOf(None) + SetOf(retired) == SetOf(retired);
    assert NamesItsSecret(input, p.current, saved.definition, before, after);
  }

  lemma CompensatedIsRight(
      repository: RepositoryId, input: Input, sha: nat, p: Prepared, saved: Versioned, r: UpdateOutcome,
      oldFiles: Files, files: Files,
      before: Tables, prepared: Tables, moved: Tables, after: Tables, oldLost: set<SecretId>, lost: set<SecretId>,
      calm: bool)
    requires Consistent(before) && ChosenFor(input, p) && Ready(repository, input, p, before, prepared, oldLost)
    requires input.id in oldFiles && oldFiles[input.id].definition == p.current && oldFiles[input.id].sha == sha
    requires IsRequested(input, p.current, saved.definition) && saved.definition.auth == p.auth
    requires r.Compensated?
    requires calm && (p.current.auth.NoAuth? ==> Agrees(repository, p.current, before)) ==>
      r == Compensated(true, true) && lost == oldLost
    requires SettledRight(repository, p.current, saved, p.candidate, r, oldFiles[input.id := saved], files,
                          prepared, moved, after, lost)
    ensures UpdateIsRight(repository, input, sha, r, oldFiles, files, before, after, oldLost, lost, calm)
  {
    var key := (repository, input.id);
    assert files == oldFiles[input.id := files[input.id]];
    var other := if r.gitRestored then None else SecretOf(p.current.auth);
    SettledFrame(key, before, prepared, moved, after, p.candidate, other);
    if p.candidate.Some? { FramedWithout(key, before, after, SetOf(other), p.candidate.value); }
    assert Framed(key, before, after, SetOf(other));
  }

  lemma SettledFrame(
      key: Key, before: Tables, prepared: Tables, moved: Tables, after: Tables,
      a: Option<SecretId>, b: Option<SecretId>)
    requires Framed(key, before, prepared, {}) && RowOnly(key, prepared, moved) && Retired(moved, after, a, b)
    ensures Framed(key, before, after, SetOf(b) + SetOf(a)) && after.secrets.Keys <= prepared.secrets.Keys
    ensures forall s :: s in after.secrets && s in prepared.secrets && s !in SetOf(b) + SetOf(a) ==>
      after.secrets[s] == prepared.secrets[s]
  {
    RowOnlyFrames(key, prepared, moved);
    RetiredFrames(key, moved, after, a, b);
    FramedOnward(key, before, prepared, moved, {}, {});
    FramedOnward(key, before, moved, after, {} + {}, SetOf(a) + SetOf(b));
    assert {} + {} + (SetOf(a) + SetOf(b)) == SetOf(b) + SetOf(a);
  }

  method UpdateMcpServer(repository: RepositoryId, input: Input, sha: nat, repo: ToolRepository, vault: Vault)
      returns (r: UpdateOutcome)
    requires repo.Valid() && vault.Valid()
    modifies repo, vault
    ensures repo.Valid() && vault.Valid() && old(vault.history) <= vault.history
    ensures old(vault.calls) <= vault.calls
    ensures Alone(repo, vault) ==>
      UpdateIsRight(repository, input, sha, r, old(repo.files), repo.files, old(vault.tables), vault.tables,
                    old(vault.lost), vault.lost,
                    Calm(repo, vault, old(vault.calls), vault.calls, old(repo.calls) + 2))
    ensures Alone(repo, vault) && vault.Worked(old(vault.calls), vault.calls) ==>
      repo.faults(old(repo.calls)) == Works ==>
      CanSave(repository, input, sha, old(repo.files), old(vault.tables)) ==>
      && (repo.faults(old(repo.calls) + 1) == Works ==> r.Saved?)
      && (repo.faults(old(repo.calls) + 1) == ThrowsAfter ==>
            && r.WriteThrew? && input.id in repo.files
            && IsRequested(input, old(repo.files)[input.id].definition, repo.files[input.id].definition))
  {
    LegalIsConsistent(vault.history, |vault.history| - 1);
    var prepared := Prepare(repository, input, repo, vault);
    assert repo.calls == old(repo.calls) + 1 && repo.calls + 1 == old(repo.calls) + 2;
    if prepared.None? {
      if Alone(repo, vault) {
        NotBegunIsRight(repository, input, sha, old(repo.files), repo.files, old(vault.tables), vault.tables,
                        old(vault.lost), vault.lost,
                        Calm(repo, vault, old(vault.calls), vault.calls, old(repo.calls) + 2));
      }
      return ThrewBefore;
    }
    NextIsRequested(input, prepared.value, repo.files, sha);
    r := Save(repository, input, sha, repo, vault, prepared.value,
              old(vault.tables), old(repo.files), old(vault.lost), old(vault.calls), old(repo.calls) + 2);
  }

  lemma NotBegunIsRight(
      repository: RepositoryId, input: Input, sha: nat, oldFiles: Files, files: Files,
      before: Tables, after: Tables, oldLost: set<SecretId>, lost: set<SecretId>, calm: bool)
    requires NotBegun(repository, input, oldFiles, files, before, after, lost)
    ensures UpdateIsRight(repository, input, sha, ThrewBefore, oldFiles, files, before, after, oldLost, lost, calm)
  {}

  // ---- createMcpServer (lib/mcp-tool-service.ts:11-16) ----

  function Requested(input: Input, auth: Auth): Definition {
    Definition(input.id, input.name, input.endpoint, auth, [])
  }

  /** The definition is parsed after the secret was created and before any block that would clean up: a
      bearer request with a token whose definition the schema refuses. */
  predicate LeaksSecret(input: Input) {
    input.bearer && HasToken(input) && |input.token.value| <= MAX_TOKEN && Parsed(Requested(input, NoAuth)).None?
  }

  /** When nothing throws, a request to create a server is granted just if this holds. */
  predicate CanCreate(repository: RepositoryId, input: Input, files: Files, t: Tables) {
    && (input.token.Some? ==> |input.token.value| <= MAX_TOKEN)
    && Parsed(Requested(input, NoAuth)).Some? && input.id !in files
    && (input.bearer ==> HasToken(input) && (repository, input.id) !in t.rows)
  }

  /** The row of `key` is as before, or is new and uses a lost secret. */
  predicate RowKeptOrLost(key: Key, before: Tables, after: Tables, lost: set<SecretId>) {
    if key in before.rows then key in after.rows && after.rows[key] == before.rows[key]
    else key in after.rows ==> after.rows[key].secret in lost
  }

  /** What a creation leaves behind when nobody else is at work. Nothing of any other server changes.
      - Created: Git holds the new definition and the vault agrees with it, provided a server without a credential
        had no binding before; no secret is new but the one it names, which holds the token.
      - Otherwise a definition left in Git fails closed, and the server's row is as before or uses a lost secret. No
        new secret is live, unless the request is one that leaks its secret. */
  predicate CreateIsRight(
      repository: RepositoryId, input: Input, r: Option<Versioned>, oldFiles: Files, files: Files,
      before: Tables, after: Tables, lost: set<SecretId>)
  {
    var key := (repository, input.id);
    && Framed(key, before, after, {})
    && if r.Some? then
         && input.id !in oldFiles && files == oldFiles[input.id := r.value]
         && var now := r.value.definition;
            && Parsed(Requested(input, now.auth)) == Some(now) && (now.auth.Bearer? <==> input.bearer)
            && (forall s :: s in after.secrets ==> s in before.secrets || now.auth == Bearer(s))
            && (input.bearer ==>
                  && now.auth.secret !in before.secrets && now.auth.secret in after.secrets
                  && input.token == Some(after.secrets[now.auth.secret]))
            && (input.bearer || key !in before.rows ==> Agrees(repository, now, after))
       else
         && RowKeptOrLost(key, before, after, lost)
         && (|| files == oldFiles
             || (&& !LeaksSecret(input) && input.id !in oldFiles && input.id in files
                 && files == oldFiles[input.id := files[input.id]]
                 && FailsClosed(files[input.id].definition, after, lost)))
         && (!LeaksSecret(input) ==> NoNewSecret(before, after, lost))
  }

  /** If no insert or delete of a secret threw, the requests that leak are exactly the ones that leave a new live
      secret behind when the creation fails. */
  method CreateMcpServer(repository: RepositoryId, input: Input, repo: ToolRepository, vault: Vault)
      returns (r: Option<Versioned>)
    requires repo.Valid() && vault.Valid()
    modifies repo, vault
    ensures repo.Valid() && vault.Valid() && old(vault.history) <= vault.history
    ensures old(vault.calls) <= vault.calls
    ensures LeaksSecret(input) ==> r.None?
    ensures Alone(repo, vault) ==>
      CreateIsRight(repository, input, r, old(repo.files), repo.files, old(vault.tables), vault.tables, vault.lost)
    ensures Alone(repo, vault) && r.None? && vault.secretThrows == old(vault.secretThrows) ==>
      (NoNewSecret(old(vault.tables), vault.tables, vault.lost) <==> !LeaksSecret(input))
    ensures Alone(repo, vault) && r.None? ==>
      repo.faults(old(repo.calls)) != ThrowsAfter && repo.faults(old(repo.calls) + 1) == Works ==>
      repo.files == old(repo.files)
    ensures vault.Worked(old(vault.calls), vault.calls) ==> vault.secretThrows == old(vault.secretThrows)
    ensures Alone(repo, vault) && vault.Worked(old(vault.calls), vault.calls) ==>
      repo.faults(old(repo.calls)) == Works ==>
      (r.Some? <==> CanCreate(repository, input, old(repo.files), old(vault.tables)))
  {
    ghost var added: Option<SecretId> := None;
    if (input.token.Some? && |input.token.value| > MAX_TOKEN) || (input.bearer && !HasToken(input)) {
      NotPublished(repository, input, repo.files, vault.tables, vault.tables, added, vault.lost);
      return None;
    }
    var secret: Option<SecretId> := None;
    if input.bearer {
      secret, added := CreateSecret(vault, input.token.value);
      if secret.None? {
        if Alone(repo, vault) {
          NotPublished(repository, input, repo.files, old(vault.tables), vault.tables, added, vault.lost);
        }
        return None;
      }
    }
    assert repo.calls == old(repo.calls) && repo.files == old(repo.files);
    assert Consistent(old(vault.tables)) by { LegalIsConsistent(old(vault.history), |old(vault.history)| - 1); }
    r := CreateWith(repository, input, secret, repo, vault, old(vault.tables));
  }

  /** The request's secret is in the vault: parse the definition, then publish it. `before` is the vault without the
      secret. */
  method CreateWith(
      repository: RepositoryId, input: Input, secret: Option<SecretId>, repo: ToolRepository, vault: Vault,
      ghost before: Tables)
      returns (r: Option<Versioned>)
    requires repo.Valid() && vault.Valid() && (input.token.Some? ==> |input.token.value| <= MAX_TOKEN)
    requires (secret.Some? <==> input.bearer) && (secret.Some? ==> HasToken(input) && secret.value !in vault.lost)
    requires Consistent(before) && (Alone(repo, vault) ==> Added(before, vault.tables, secret, input.token))
    modifies repo, vault
    ensures repo.Valid() && vault.Valid() && old(vault.history) <= vault.history && old(vault.calls) <= vault.calls
    ensures LeaksSecret(input) ==> r.None?
    ensures Alone(repo, vault) ==>
      CreateIsRight(repository, input, r, old(repo.files), repo.files, before, vault.tables, vault.lost)
    ensures Alone(repo, vault) && r.None? && vault.secretThrows == old(vault.secretThrows) ==>
      (NoNewSecret(before, vault.tables, vault.lost) <==> !LeaksSecret(input))
    ensures Alone(repo, vault) && r.None? ==>
      repo.faults(old(repo.calls)) != ThrowsAfter && repo.faults(old(repo.calls) + 1) == Works ==>
      repo.files == old(repo.files)
    ensures vault.Worked(old(vault.calls), vault.calls) ==> vault.secretThrows == old(vault.secretThrows)
    ensures Alone(repo, vault) && vault.Worked(old(vault.calls), vault.calls) ==>
      repo.faults(old(repo.calls)) == Works ==>
      (r.Some? <==> CanCreate(repository, input, old(repo.files), before))
  {
    var definition := Parsed(Requested(input, if secret.Some? then Bearer(secret.value) else NoAuth));
    if definition.None? {
      if Alone(repo, vault) {
        NotPublished(repository, input, repo.files, before, vault.tables, secret, vault.lost);
      }
      return None;
    }
    ParsedIsStable(Requested(input, definition.value.auth));
    ghost var moved;
    r, moved := Publish(repository, definition.value, secret, repo, vault);
    if Alone(repo, vault) {
      NewSecretCanBind((repository, input.id), input.endpoint, before, old(vault.tables), secret, input.token);
      PublishedIsRight(repository, input, r, definition.value, secret, old(repo.files), repo.files,
                       before, old(vault.tables), moved, vault.tables, vault.lost);
    }
  }

  /** The secret, and what was added to the vault: a secret whose insert threw may be there all the same. */
  method CreateSecret(vault: Vault, token: string) returns (secret: Option<SecretId>, ghost added: Option<SecretId>)
    requires vault.Valid()
    modifies vault
    ensures vault.Valid() && old(vault.history) <= vault.history && old(vault.lost) <= vault.lost
    ensures old(vault.calls) <= vault.calls
    ensures secret.None? <==> vault.secretThrows > old(vault.secretThrows)
    ensures secret.Some? ==>
      && added == secret && secret.value !in vault.lost
      && vault.lost == old(vault.lost) && vault.secretThrows == old(vault.secretThrows)
    ensures secret.None? && added.Some? ==> added.value in vault.lost
    ensures !vault.shared ==> Added(old(vault.tables), vault.tables, added, Some(token))
    ensures vault.Worked(old(vault.calls), vault.calls) ==> secret.Some?
  {
    secret := vault.Create(token);
    added := secret;
    if secret.None? && !vault.shared && vault.tables != old(vault.tables) {
      ghost var lost: SecretId :| lost in vault.lost && NeverLive(old(vault.history), lost) &&
        vault.tables == old(vault.tables).(secrets := old(vault.tables).secrets[lost := token]);
      added := Some(lost);
    }
  }

  lemma NotPublished(
      repository: RepositoryId, input: Input, files: Files, before: Tables, after: Tables, added: Option<SecretId>,
      lost: set<SecretId>)
    requires Added(before, after, added, input.token)
    requires added.Some? ==> added.value in lost || LeaksSecret(input)
    ensures CreateIsRight(repository, input, None, files, files, before, after, lost)
  {}

  /** What the two blocks that clean up leave behind, starting with the secret in the vault; `moved` is the vault
      before the secret was retired. */
  predicate PublishedRight(
      repository: RepositoryId, definition: Definition, secret: Option<SecretId>, r: Option<Versioned>,
      oldFiles: Files, files: Files, before: Tables, moved: Tables, after: Tables, lost: set<SecretId>)
  {
    var key := (repository, definition.id);
    && RowOnly(key, before, moved)
    && if r.Some? then
         && after == moved
         && r.value.definition == definition && definition.id !in oldFiles
         && files == oldFiles[definition.id := r.value]
         && (secret.Some? || key !in before.rows ==> Agrees(repository, definition, after))
       else
         && Retired(moved, after, secret, None)
         && (if key in before.rows then moved == before
             else key in moved.rows ==> Some(moved.rows[key].secret) == secret)
         && (|| files == oldFiles
             || (&& definition.id !in oldFiles && definition.id in files
                 && files == oldFiles[definition.id := files[definition.id]]
                 && files[definition.id].definition == definition))
         && (secret.Some? && secret.value in after.secrets ==> secret.value in lost)
  }

  /** A server with a new secret can be bound just if it has no binding. */
  lemma NewSecretCanBind(
      key: Key, endpoint: Endpoint, before: Tables, between: Tables, secret: Option<SecretId>, token: Option<string>)
    requires Consistent(before) && Added(before, between, secret, token) && endpoint.href.Some?
    ensures secret.Some? ==> (CanEnsure(key, endpoint, secret.value, between) <==> key !in before.rows)
  {}

  lemma PublishedIsRight(
      repository: RepositoryId, input: Input, r: Option<Versioned>, definition: Definition, secret: Option<SecretId>,
      oldFiles: Files, files: Files, before: Tables, between: Tables, moved: Tables, after: Tables,
      lost: set<SecretId>)
    requires Consistent(before) && (secret.Some? <==> input.bearer)
    requires definition.auth == if secret.Some? then Bearer(secret.value) else NoAuth
    requires Parsed(Requested(input, definition.auth)) == Some(definition)
    requires Added(before, between, secret, input.token)
    requires PublishedRight(repository, definition, secret, r, oldFiles, files, between, moved, after, lost)
    ensures CreateIsRight(repository, input, r, oldFiles, files, before, after, lost)
  {
    AddedFrames((repository, input.id), before, before, between, secret, input.token);
    PublishedFrame((repository, input.id), before, between, moved, after, if r.Some? then None else secret);
  }

  lemma PublishedFrame(
      key: Key, before: Tables, between: Tables, moved: Tables, after: Tables, retired: Option<SecretId>)
    requires Consistent(before) && Framed(key, before, between, {})
    requires retired.Some? ==> retired.value !in before.secrets
    requires RowOnly(key, between, moved) && Retired(moved, after, retired, None)
    ensures Framed(key, before, after, {}) && after.secrets.Keys <= between.secrets.Keys
  {
    SettledFrame(key, before, between, moved, after, retired, None);
    if retired.Some? {
      assert SetOf(None) + SetOf(retired) == {} + {retired.value};
      FramedWithout(key, before, after, {}, retired.value);
    }
  }

  /** The two blocks that clean up: write the definition, then bind its secret. */
  method Publish(
      repository: RepositoryId, definition: Definition, secret: Option<SecretId>, repo: ToolRepository, vault: Vault)
      returns (r: Option<Versioned>, ghost moved: Tables)
    requires repo.Valid() && vault.Valid() && Parsed(definition) == Some(definition)
    requires definition.auth == if secret.Some? then Bearer(secret.value) else NoAuth
    modifies repo, vault
    ensures repo.Valid() && vault.Valid() && old(vault.history) <= vault.history && old(vault.lost) <= vault.lost
    ensures old(vault.calls) <= vault.calls
    ensures vault.secretThrows == old(vault.secretThrows) ==> vault.lost == old(vault.lost)
    ensures vault.Worked(old(vault.calls), vault.calls) ==> vault.secretThrows == old(vault.secretThrows)
    ensures Alone(repo, vault) ==>
      PublishedRight(repository, definition, secret, r, old(repo.files), repo.files,
                     old(vault.tables), moved, vault.tables, vault.lost)
    ensures Alone(repo, vault) && r.None? ==>
      repo.faults(old(repo.calls)) != ThrowsAfter && repo.faults(old(repo.calls) + 1) == Works ==>
      repo.files == old(repo.files)
    ensures Alone(repo, vault) && vault.Worked(old(vault.calls), vault.calls) ==>
      repo.faults(old(repo.calls)) == Works ==>
      (r.Some? <==>
        (&& definition.id !in old(repo.files)
         && (secret.Some? ==>
               CanEnsure((repository, definition.id), definition.endpoint, secret.value, old(vault.tables)))))
  {
    moved := vault.tables;
    var created := repo.Create(definition);
    assert repo.calls == old(repo.calls) + 1 && vault.calls == old(vault.calls);
    if created.None? {
      vault.Cleanup(secret);
      return None, moved;
    }
    if secret.None? { return created, moved; }
    r, moved :=
      Attach(repository, definition, secret, created.value, repo, vault, old(repo.files), old(repo.calls) + 1);
  }

  /** The definition is in Git: bind its secret, or take both back. */
  method Attach(
      repository: RepositoryId, definition: Definition, secret: Option<SecretId>, created: Versioned,
      repo: ToolRepository, vault: Vault, ghost oldFiles: Files, ghost last: nat)
      returns (r: Option<Versioned>, ghost moved: Tables)
    requires repo.Valid() && vault.Valid() && secret.Some? && definition.auth == Bearer(secret.value)
    requires created.definition == definition && last == repo.calls
    requires Alone(repo, vault) ==>
      definition.id !in oldFiles && repo.files == oldFiles[definition.id := created]
    modifies repo, vault
    ensures repo.Valid() && vault.Valid() && old(vault.history) <= vault.history && old(vault.lost) <= vault.lost
    ensures old(vault.calls) <= vault.calls
    ensures vault.secretThrows == old(vault.secretThrows) ==> vault.lost == old(vault.lost)
    ensures vault.Worked(old(vault.calls), vault.calls) ==> vault.secretThrows == old(vault.secretThrows)
    ensures Alone(repo, vault) ==>
      PublishedRight(repository, definition, secret, r, oldFiles, repo.files,
                     old(vault.tables), moved, vault.tables, vault.lost)
    ensures Alone(repo, vault) && r.None? && repo.faults(last) == Works ==> repo.files == oldFiles
    ensures Alone(repo, vault) && vault.Worked(old(vault.calls), vault.calls) ==>
      (r.Some? <==> CanEnsure((repository, definition.id), definition.endpoint, secret.value, old(vault.tables)))
  {
    var bound := vault.Ensure(repository, definition.id, definition.endpoint, secret.value);
    moved := vault.tables;
    if bound.Some? { return Some(created), moved; }
    Uncreate(repo, vault, definition.id, created.sha, secret);
    if Alone(repo, vault) { assert oldFiles[definition.id := created] - {definition.id} == oldFiles; }
    r := None;
  }

  /** The catch block of the creation. The binding id it would revoke is never set when it runs: the row, if
      one was stored, goes with its secret. */
  method Uncreate(repo: ToolRepository, vault: Vault, id: ServerId, sha: nat, secret: Option<SecretId>)
    requires repo.Valid() && vault.Valid()
    modifies repo, vault
    ensures repo.Valid() && vault.Valid() && old(vault.history) <= vault.history && old(vault.lost) <= vault.lost
    ensures old(vault.calls) <= vault.calls
    ensures vault.secretThrows == old(vault.secretThrows) ==> vault.lost == old(vault.lost)
    ensures vault.Worked(old(vault.calls), vault.calls) ==> vault.secretThrows == old(vault.secretThrows)
    ensures Alone(repo, vault) ==>
      && (repo.files == old(repo.files) || repo.files == old(repo.files) - {id})
      && (id in old(repo.files) && old(repo.files)[id].sha == sha && repo.faults(old(repo.calls)) == Works ==>
            repo.files == old(repo.files) - {id})
      && if secret.None? then vault.tables == old(vault.tables)
         else vault.tables == Without(old(vault.tables), secret.value) ||
              (vault.tables == old(vault.tables) && secret.value in vault.lost)
  {
    var _ := repo.Delete(id, sha);
    vault.Cleanup(secret);
  }

  // ---- deleteMcpServer (lib/mcp-tool-service.ts:34) ----

  datatype DeleteOutcome = Deleted | DeleteThrew | RevokeThrew(authorityRestored: bool, gitRestored: bool)

  /** When nothing throws, a server is deleted just if this holds. */
  predicate CanDelete(repository: RepositoryId, id: ServerId, sha: nat, files: Files, t: Tables) {
    && id in files && files[id].sha == sha
    && var was := files[id].definition;
       was.auth.Bearer? ==> CanEnsure((repository, id), was.endpoint, was.auth.secret, t)
  }

  /** What a deletion leaves behind when nobody else is at work. Nothing of any other server changes, except for rows
      that use this server's secret when it is retired, and no secret is new.
      - Deleted: the file had the expected sha and is gone, and so are the binding and the live secret.
      - The Git delete, or something before it, threw: the secrets are as before, and so is the server's row, or it
        was put where there was none. The file is there or gone; if it is gone, a bearer server's secret is live
        and bound as if it were there.
      - The revocation threw: both stores agree on the old definition again, or the secret is retired. */
  predicate DeleteIsRight(
      repository: RepositoryId, id: ServerId, sha: nat, r: DeleteOutcome, oldFiles: Files, files: Files,
      before: Tables, after: Tables, lost: set<SecretId>)
  {
    var key := (repository, id);
    && after.secrets.Keys <= before.secrets.Keys
    && if id !in oldFiles then r.DeleteThrew? && files == oldFiles && after == before
       else
         var was := oldFiles[id].definition;
         && Framed(key, before, after,
                   if r.DeleteThrew? || r == RevokeThrew(true, true) then {} else SetOf(SecretOf(was.auth)))
         && match r
            case Deleted =>
              && oldFiles[id].sha == sha && files == oldFiles - {id}
              && FailsClosed(was, after, lost) && (was.auth.Bearer? ==> key !in after.rows)
            case DeleteThrew =>
              && after.secrets == before.secrets && OwnRowKept(repository, was, before, after)
              && (|| files == oldFiles
                  || (files == oldFiles - {id} && (was.auth.Bearer? ==> Agrees(repository, was, after))))
            case RevokeThrew(authorityRestored, gitRestored) =>
              && FileOnly(id, oldFiles, files) && (id in files ==> files[id].definition == was)
              && (if authorityRestored && gitRestored then
                    id in files && Agrees(repository, was, after) && KeepsId(key, before, after)
                  else FailsClosed(was, after, lost))
  }

  method DeleteMcpServer(repository: RepositoryId, id: ServerId, sha: nat, repo: ToolRepository, vault: Vault)
      returns (r: DeleteOutcome)
    requires repo.Valid() && vault.Valid()
    modifies repo, vault
    ensures repo.Valid() && vault.Valid() && old(vault.history) <= vault.history
    ensures old(vault.calls) <= vault.calls
    ensures Alone(repo, vault) ==>
      DeleteIsRight(repository, id, sha, r, old(repo.files), repo.files, old(vault.tables), vault.tables, vault.lost)
    ensures r.DeleteThrew? ==> vault.lost == old(vault.lost)
    ensures Alone(repo, vault) && vault.Worked(old(vault.calls), vault.calls) ==>
      repo.faults(old(repo.calls)) == Works ==>
      && (repo.faults(old(repo.calls) + 1) == Works ==>
            (r.Deleted? <==> CanDelete(repository, id, sha, old(repo.files), old(vault.tables))))
      && (repo.faults(old(repo.calls) + 1) == ThrowsAfter ==>
            && r.DeleteThrew?
            && (id in old(repo.files) && id !in repo.files <==>
                  CanDelete(repository, id, sha, old(repo.files), old(vault.tables))))
    ensures Alone(repo, vault) && r.RevokeThrew? ==>
      Calm(repo, vault, old(vault.calls), vault.calls, old(repo.calls) + 2) ==> r == RevokeThrew(true, true)
  {
    var got := repo.Get(id);
    if got.None? || got.value.None? {
      NothingDeleted(repository, id, sha, repo.files, vault.tables, vault.lost);
      return DeleteThrew;
    }
    var current := got.value.value.definition;
    assert repo.calls == old(repo.calls) + 1 && vault.calls == old(vault.calls);
    var binding := Rebind(repository, current, vault);
    ghost var between, moved := vault.tables, vault.tables;
    if binding.None? {
      r := DeleteThrew;
    } else {
      r, moved :=
        Remove(repository, current, binding.value, sha, repo, vault, old(vault.calls), old(repo.calls) + 2);
    }
    if Alone(repo, vault) {
      RemovedIsRight(repository, current, sha, r, old(repo.files), repo.files, old(vault.tables), between, moved,
                     vault.tables, vault.lost);
    }
  }

  lemma NothingDeleted(
      repository: RepositoryId, id: ServerId, sha: nat, files: Files, t: Tables, lost: set<SecretId>)
    ensures DeleteIsRight(repository, id, sha, DeleteThrew, files, files, t, t, lost)
  {}

  /** What deleting the file and the binding leaves behind; `moved` is the vault before the secret was retired. */
  predicate RemovedRight(
      repository: RepositoryId, current: Definition, sha: nat, r: DeleteOutcome, oldFiles: Files, files: Files,
      before: Tables, moved: Tables, after: Tables, lost: set<SecretId>)
    requires current.id in oldFiles
  {
    && RowOnly((repository, current.id), before, moved)
    && match r
       case Deleted =>
         && oldFiles[current.id].sha == sha && files == oldFiles - {current.id}
         && Retired(moved, after, SecretOf(current.auth), None) && FailsClosed(current, after, lost)
         && (current.auth.Bearer? ==> (repository, current.id) !in after.rows)
       case DeleteThrew =>
         && after == moved == before
         && (|| files == oldFiles
             || (files == oldFiles - {current.id} && (current.auth.Bearer? ==> Agrees(repository, current, after))))
       case RevokeThrew(authorityRestored, gitRestored) =>
         && FileOnly(current.id, oldFiles, files)
         && (current.id in files ==> files[current.id].definition == current)
         && if authorityRestored && gitRestored then
              && after == moved && current.id in files && Agrees(repository, current, after)
              && KeepsId((repository, current.id), before, after)
            else
              Retired(moved, after, SecretOf(current.auth), None) && FailsClosed(current, after, lost)
  }

  lemma RemovedIsRight(
      repository: RepositoryId, current: Definition, sha: nat, r: DeleteOutcome, oldFiles: Files, files: Files,
      before: Tables, between: Tables, moved: Tables, after: Tables, lost: set<SecretId>)
    requires current.id in oldFiles && oldFiles[current.id].definition == current
    requires RowOnly((repository, current.id), before, between) && OwnRowKept(repository, current, before, between)
    requires RemovedRight(repository, current, sha, r, oldFiles, files, between, moved, after, lost)
    ensures DeleteIsRight(repository, current.id, sha, r, oldFiles, files, before, after, lost)
  {
    var key := (repository, current.id);
    var retired := if r.DeleteThrew? || r == RevokeThrew(true, true) then None else SecretOf(current.auth);
    RowOnlyFrames(key, before, between);
    SettledFrame(key, before, between, moved, after, retired, None);
    assert SetOf(None) + SetOf(retired) == SetOf(retired);
  }

  /** Delete the file, then the binding and the secret, or put both back. */
  method Remove(
      repository: RepositoryId, current: Definition, binding: BindingId, sha: nat, repo: ToolRepository, vault: Vault,
      ghost began: nat, ghost last: nat)
      returns (r: DeleteOutcome, ghost moved: Tables)
    requires repo.Valid() && vault.Valid() && Parsed(current) == Some(current)
    requires began <= vault.calls && last == repo.calls + 1
    requires current.auth.Bearer? ==> Seen(vault.history, binding, current.endpoint.href.value)
    requires Alone(repo, vault) ==>
      && current.id in repo.files && repo.files[current.id].definition == current
      && (current.auth.Bearer? ==>
            && Agrees(repository, current, vault.tables)
            && vault.tables.rows[(repository, current.id)].id == binding)
    modifies repo, vault
    ensures repo.Valid() && vault.Valid() && old(vault.history) <= vault.history
    ensures old(vault.calls) <= vault.calls
    ensures Alone(repo, vault) ==>
      RemovedRight(repository, current, sha, r, old(repo.files), repo.files,
                   old(vault.tables), moved, vault.tables, vault.lost)
    ensures r.DeleteThrew? ==> vault.lost == old(vault.lost)
    ensures Alone(repo, vault) ==>
      && (repo.faults(old(repo.calls)) == Works && vault.Worked(old(vault.calls), vault.calls) ==>
            (r.Deleted? <==> old(repo.files)[current.id].sha == sha))
      && (repo.faults(old(repo.calls)) == ThrowsAfter ==>
            && r.DeleteThrew? && (current.id !in repo.files <==> old(repo.files)[current.id].sha == sha))
    ensures Alone(repo, vault) && r.RevokeThrew? && Calm(repo, vault, began, vault.calls, last) ==>
      r == RevokeThrew(true, true)
  {
    moved := vault.tables;
    var deleted := repo.Delete(current.id, sha);
    assert repo.calls == old(repo.calls) + 1 && vault.calls == old(vault.calls);
    if !deleted { return DeleteThrew, moved; }
    if current.auth.NoAuth? { return Deleted, moved; }
    r, moved := Unbind(repository, current, binding, sha, repo, vault, old(repo.files), began, last);
  }

  /** The file is gone: delete the binding and the secret too, or put both back. */
  method Unbind(
      repository: RepositoryId, current: Definition, binding: BindingId, sha: nat, repo: ToolRepository, vault: Vault,
      ghost oldFiles: Files, ghost began: nat, ghost last: nat)
      returns (r: DeleteOutcome, ghost moved: Tables)
    requires repo.Valid() && vault.Valid() && Parsed(current) == Some(current) && current.auth.Bearer?
    requires began <= vault.calls && last == repo.calls
    requires Seen(vault.history, binding, current.endpoint.href.value)
    requires Alone(repo, vault) ==>
      && current.id in oldFiles && oldFiles[current.id].definition == current
      && oldFiles[current.id].sha == sha && repo.files == oldFiles - {current.id}
      && Agrees(repository, current, vault.tables)
      && vault.tables.rows[(repository, current.id)].id == binding
    modifies repo, vault
    ensures repo.Valid() && vault.Valid() && old(vault.history) <= vault.history
    ensures old(vault.calls) <= vault.calls
    ensures Alone(repo, vault) ==>
      RemovedRight(repository, current, sha, r, oldFiles, repo.files, old(vault.tables), moved, vault.tables,
                   vault.lost)
    ensures !r.DeleteThrew?
    ensures Alone(repo, vault) && vault.Worked(old(vault.calls), vault.calls) ==> r.Deleted?
    ensures Alone(repo, vault) && r.RevokeThrew? && Calm(repo, vault, began, vault.calls, last) ==>
      r == RevokeThrew(true, true)
  {
    var revoked := vault.Revoke(repository, current.id, binding);
    moved := vault.tables;
    if revoked {
      vault.Cleanup(Some(current.auth.secret));
      return Deleted, moved;
    }
    SeenStays(old(vault.history), vault.history, binding, current.endpoint.href.value);
    if Alone(repo, vault) { OwnIdFree(old(vault.history), vault.tables, (repository, current.id)); }
    ghost var failedAt := vault.calls;
    var authorityRestored, gitRestored;
    authorityRestored, gitRestored, moved := Undelete(repository, repo, vault, current, binding);
    if vault.OneThrew(began, vault.calls) {
      vault.OneThrewLater(began, old(vault.calls), vault.calls);
      if !vault.Worked(old(vault.calls), failedAt) { vault.RestWorked(old(vault.calls), failedAt, vault.calls); }
    }
    r := RevokeThrew(authorityRestored, gitRestored);
  }

  /** The catch block of the deletion. */
  method Undelete(
      repository: RepositoryId, repo: ToolRepository, vault: Vault, current: Definition, binding: BindingId)
      returns (authorityRestored: bool, gitRestored: bool, ghost restored: Tables)
    requires repo.Valid() && vault.Valid() && current.auth.Bearer?
    requires Parsed(current) == Some(current) && Seen(vault.history, binding, current.endpoint.href.value)
    modifies repo, vault
    ensures repo.Valid() && vault.Valid() && old(vault.history) <= vault.history
    ensures old(vault.calls) <= vault.calls
    ensures Alone(repo, vault) ==>
      && RowOnly((repository, current.id), old(vault.tables), restored)
      && FileOnly(current.id, old(repo.files), repo.files)
      && (current.id in repo.files ==>
            current.id in old(repo.files) || repo.files[current.id].definition == current)
      && (gitRestored ==> current.id in repo.files && repo.files[current.id].definition == current)
      && if authorityRestored && gitRestored then
           && vault.tables == restored
           && (current.auth.secret in old(vault.tables).secrets ==>
                 Agrees(repository, current, vault.tables) &&
                 vault.tables.rows[(repository, current.id)].id == binding)
         else
           && Retired(restored, vault.tables, SecretOf(current.auth), None)
           && FailsClosed(current, vault.tables, vault.lost)
    ensures Alone(repo, vault) ==>
      (gitRestored <==> current.id !in old(repo.files) && repo.faults(old(repo.calls)) == Works)
    ensures Alone(repo, vault) && vault.Worked(old(vault.calls), vault.calls) ==>
      CanRestore(repository, current, binding, old(vault.tables)) ==> authorityRestored
  {
    authorityRestored := vault.Restore(repository, current.id, binding, current.endpoint, current.auth.secret);
    restored := vault.tables;
    var recreated := repo.Create(current);
    gitRestored := recreated.Some?;
    if !authorityRestored || !gitRestored {
      vault.Cleanup(Some(current.auth.secret));
    }
  }
}
