/** Three requests that lib/mcp-tool-service.ts does not clean up after, each carried out from an empty vault: a
    creation refused by the schema, an update and a deletion whose Git call threw after taking effect. */
module McpServerFailures {
  import opened Options
  import opened CredentialVault
  import opened DefinitionIds
  import opened McpServers
  import opened McpToolAuthority

  const SEARCH := Endpoint("https://search.example/", Some("https://search.example/"))
  const MOVED := Endpoint("https://moved.example/", Some("https://moved.example/"))
  const PLAIN_HTTP := Input("search", "Search", Endpoint("http://x", None), true, Some("token"))
  const MOVE_REQUEST := Input("search", "Search", MOVED, true, None)

  function NeverThrows(call: nat): Fault { Works }

  /** The read works, the write takes effect and throws. */
  function WriteThrowsLate(call: nat): Fault { if call == 1 then ThrowsAfter else Works }

  function SearchServer(secret: SecretId): Definition { Definition("search", "Search", SEARCH, Bearer(secret), []) }

  lemma SearchParses(secret: SecretId)
    ensures Parsed(SearchServer(secret)) == Some(SearchServer(secret))
    ensures Parsed(SearchServer(secret).(endpoint := MOVED)) == Some(SearchServer(secret).(endpoint := MOVED))
  {
    assert Trim("Search") == "Search";
    assert ValidId("search");
  }

  lemma PlainHttpLeaks()
    ensures LeaksSecret(PLAIN_HTTP)
  {
    assert Trim("token") == "token";
  }

  /** A bearer request for an endpoint that is not https: the creation throws, Git is untouched, and the new secret
      is live although no call threw. */
  method CreationLeaks(repository: RepositoryId) returns (repo: ToolRepository, vault: Vault, r: Option<Versioned>)
    ensures r.None? && repo.files == map[] && vault.Valid() && vault.Reliable()
    ensures exists secret :: secret in vault.tables.secrets && secret !in vault.lost
  {
    PlainHttpLeaks();
    vault := new Vault(false, NeverThrows);
    repo := new ToolRepository(false, NeverThrows, map[], 0);
    r := CreateMcpServer(repository, PLAIN_HTTP, repo, vault);
  }

  /** A server with its credential in place; the second call to Git will take effect and throw. */
  method SetUp(repository: RepositoryId) returns (repo: ToolRepository, vault: Vault, secret: SecretId)
    ensures fresh(repo) && fresh(vault) && repo.Valid() && vault.Valid() && vault.Reliable()
    ensures Alone(repo, vault) && repo.calls == 0 && repo.faults == WriteThrowsLate
    ensures repo.files == map["search" := Versioned(SearchServer(secret), 0)]
    ensures Agrees(repository, SearchServer(secret), vault.tables) && vault.tables.secrets == map[secret := "token"]
    ensures vault.lost == {}
  {
    vault := new Vault(false, NeverThrows);
    var created := vault.Create("token");
    secret := created.value;
    var _ := vault.Ensure(repository, "search", SEARCH, secret);
    SearchParses(secret);
    repo := new ToolRepository(false, WriteThrowsLate, map["search" := Versioned(SearchServer(secret), 0)], 1);
  }

  /** The endpoint is changed and the secret kept. The caller is told that the update failed; Git holds the new
      endpoint with the live secret, and the binding is still for the old endpoint. */
  method UpdateHalfDone(repository: RepositoryId)
      returns (repo: ToolRepository, vault: Vault, secret: SecretId, r: UpdateOutcome)
    ensures r == WriteThrew && "search" in repo.files
    ensures repo.files["search"].definition == SearchServer(secret).(endpoint := MOVED)
    ensures secret in vault.tables.secrets && secret !in vault.lost
    ensures RowSays(repository, SearchServer(secret), vault.tables)
    ensures !Agrees(repository, repo.files["search"].definition, vault.tables)
  {
    repo, vault, secret := SetUp(repository);
    MoveCanBeSaved(repository, secret, repo.files, vault.tables);
    ghost var files, before := repo.files, vault.tables;
    r := UpdateMcpServer(repository, MOVE_REQUEST, 0, repo, vault);
    HalfDone(repository, secret, files, repo.files, before, vault.tables, vault.lost);
  }

  lemma MoveCanBeSaved(repository: RepositoryId, secret: SecretId, files: Files, t: Tables)
    requires files == map["search" := Versioned(SearchServer(secret), 0)]
    requires Agrees(repository, SearchServer(secret), t)
    ensures CanSave(repository, MOVE_REQUEST, 0, files, t)
  {
    SearchParses(secret);
  }

  /** What the contract of the update says of this request. */
  lemma HalfDone(
      repository: RepositoryId, secret: SecretId, oldFiles: Files, files: Files, before: Tables, after: Tables,
      lost: set<SecretId>)
    requires oldFiles == map["search" := Versioned(SearchServer(secret), 0)]
    requires UpdateIsRight(repository, MOVE_REQUEST, 0, WriteThrew, oldFiles, files, before, after, {}, lost, false)
    requires "search" in files && IsRequested(MOVE_REQUEST, SearchServer(secret), files["search"].definition)
    ensures files["search"].definition == SearchServer(secret).(endpoint := MOVED)
    ensures secret in after.secrets && secret !in lost && RowSays(repository, SearchServer(secret), after)
    ensures !Agrees(repository, files["search"].definition, after)
  {
    SearchParses(secret);
  }

  /** The caller is told that the deletion failed; the file is gone, and the secret is live and bound. */
  method DeleteHalfDone(repository: RepositoryId)
      returns (repo: ToolRepository, vault: Vault, secret: SecretId, r: DeleteOutcome)
    ensures fresh(repo) && fresh(vault) && repo.Valid() && vault.Valid() && vault.Reliable() && Alone(repo, vault)
    ensures r == DeleteThrew && repo.files == map[]
    ensures Agrees(repository, SearchServer(secret), vault.tables) && vault.tables.secrets == map[secret := "token"]
    ensures secret !in vault.lost
  {
    repo, vault, secret := SetUp(repository);
    r := DeleteMcpServer(repository, "search", 0, repo, vault);
  }

  /** Trying again does not help: there is no server to delete. A run that froze the tool still gets the
      credential. */
  method DeletionStrandsSecret(repository: RepositoryId)
      returns (vault: Vault, again: DeleteOutcome, tools: Option<seq<ResolvedTool>>)
    ensures again == DeleteThrew && vault.tables.secrets.Values == {"token"}
    ensures tools.Some? && |tools.value| == 1 && tools.value[0].credential == Some("token")
  {
    var repo, secret, r;
    repo, vault, secret, r := DeleteHalfDone(repository);
    again := DeleteMcpServer(repository, "search", 0, repo, vault);
    tools := StillResolves(repository, vault, secret);
  }

  method StillResolves(repository: RepositoryId, vault: Vault, secret: SecretId)
      returns (tools: Option<seq<ResolvedTool>>)
    requires vault.Valid() && vault.Reliable() && !vault.shared
    requires Agrees(repository, SearchServer(secret), vault.tables) && vault.tables.secrets == map[secret := "token"]
    modifies vault
    ensures vault.Valid() && vault.history == old(vault.history)
    ensures tools.Some? && |tools.value| == 1 && tools.value[0].credential == Some("token")
  {
    var row := vault.tables.rows[(repository, "search")];
    var frozen := FrozenTool("search", "find", SEARCH, Some(row.id), true);
    assert [frozen][0] == frozen;
    tools := ResolveFrozen(repository, [Grant("search", "find")], Some([frozen]), vault);
  }
}
