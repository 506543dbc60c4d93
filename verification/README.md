# Verified model of the artifact toolkit's control plane

A Dafny model of the parts of the control plane whose correctness is hard to see by reading: the catalogue cache
that many isolates share over a moving Git head, the MCP credential bindings kept in step across Git and a database,
the LangGraph checkpoint store, the repository readers and writers, and the byte-level and search code around them.

`dafny verify dfyconfig.toml` checks everything.

## Main results

- **Catalogue cache** (`CatalogueProtocol`, `CatalogueInvariant`, `CatalogueTheorems`, `CatalogueAnswers`). A step
  machine over any number of isolates, loads and invalidations. Every remote call is an instant of effect and a later resumption; a KV write
  that is reported as failed may still take effect at any later time. Proved over every run: read-your-writes after a
  stored generation token; every answer is exactly the catalogue of a revision that was the head no earlier than its
  `refreshedAt`, fresh ones within the window; a pointer never dangles; a publication reported as published passed its
  four checks in order; an isolate that could not tell the store about its invalidation still obeys it. Every answer is
  explained by the replies that very call got (`CatalogueAnswers.EveryAnswerIsExplained`): a forced load never answers
  from the cache, a stale answer means the repository was unavailable, the cache is used whenever it can be, and a
  pointer that was not verified is taken back.
- **Chunking** (`Chunking`): lossless, within the limit, and with no shorter partition possible.
- **Load coalescing** (`LoadFlights`): one load at a time, at most three flights, nobody gets a weaker load than asked for.
- **Credential bindings** (`CredentialVault`, `McpServers`, `McpToolAuthority`, `McpServerFailures`): a vault keeps the
  history of its tables. Over any interleaving of requests and any pattern of failing calls a binding id keeps one trust
  target in that history, so a frozen tool's credential is what a row for its own URL gave at one instant of the call.
  Rotating a token keeps the binding's id, so frozen tools go on working.
  What creating, updating and deleting a server leave in Git and in the vault is stated for every pattern of failing
  calls, together with what they leave alone and when they succeed. When one database call threw and Git answers,
  compensation restores both stores; otherwise it fails closed wherever the code compensates. The three places where
  it does not are findings below, each carried out at an input.
- **Checkpoints** (`Checkpoints`, `PendingWrites`, `WriteRows`, `CheckpointStore`): any number of old and new writers,
  every query of each at its own time and its batch later still. Replays change nothing, conflicts are refused, and the
  order of pending writes is stable exactly when no commit moves a task past another task's write, which takes a race
  with a legacy writer.
  Which writes share a row, and exactly when a `putWrites` succeeds, is stated without the index it is stored under.
- **Repository** (`WorkerPool`, `RepositoryLayout`, `CatalogueReaders`, `OptimisticWrites`): the worker pool equals the
  sequential map under every schedule; the strict loader and the diagnoser read every candidate of the tree and agree;
  no update is lost, and one that may go through does.
- **Search, keys and drafts** (`PrefixCode`, `Utf8`, `ArtifactSearch`, `Der`, `Reaches`, `DefinitionIds`).

## How the source is rendered

- KV is linearizable; Git revisions are positions in the history of the head; random tokens and ids never repeat and
  are only compared. `loadCatalogue` is a function of the revision.
- A generation token is the ordinal of the write that stored it. The source draws it before the write; nobody can see
  it before it is stored, so only the order of the stores matters. A publication id is the id of the call that made it.
- `Tick`, `MoveHead`, `Serve`, `Continue` and `LateWrite` are the steps of the catalogue machine. The state's `heads` and
  `generations` are the history of the head and of the generation key, kept to state what was true when.
- Every call to Git and to the database works, throws before it takes effect or throws after: `faults` says which, and is
  any function of the number of the call.
- In the vault, `history` (the tables after each statement), `lost` (secrets left live by an insert or a delete that
  threw) and `secretThrows` (how many such calls threw) are ghost: the source has no such tables. `shared` selects whether
  other requests act between two database calls; the rows they put carry an id that is new or that they have read before,
  which is what every method here is proved to do as well. A random id is drawn at the instant it is first stored: nobody
  can see it before. Methods that read also carry a `modifies` clause, because the others may act while they wait.
- The checkpoint store likewise keeps its `run` and the `actions` in it, and `shared` selects whether other operations
  read and commit between two of its queries.
- The history holds the statements of `create`, `delete` and the MCP binding methods. The vault's `replaceIfRevision`,
  `replace` and `recover` (`lib/provider-credential-vault.ts:155-180`) change a credential in place or put an id back. They
  are not among them: they serve the secrets of provider connections (`lib/provider-vault-connection-mutations.ts:4`,
  `lib/work-iq-auth.ts:42`) and of security profiles (`lib/provider-credential-vault.ts:141`), never one that an MCP
  server names.
- Deleting a secret deletes the bindings that use it, as the foreign key in
  `migrations/0020_add_workflow_run_mcp_snapshots.sql` says.
- A content hash is the content it is taken of; a blob's sha is its content.
- Dafny integers are unbounded; the 32-bit shift in `derLength` is written out.

## Findings

- `derLength` reads back exactly for lengths below 2^32 and for no other (`Der.LengthReadsBackIff`).
- `createMcpServer` stores the secret before it parses the definition, outside the blocks that clean up. A bearer request
  with a token whose id, name or endpoint the schema refuses throws and leaves its new secret live
  (`McpServerFailures.CreationLeaks`); when no insert or delete of a secret throws, a failed creation leaves one exactly for
  those requests (`McpServers.CreateMcpServer`).
- A Git update that throws after taking effect leaves the new definition in Git, and only a new secret is retired. If the
  request kept the secret, the definition names it, live, while the binding is still for the old endpoint: the stores
  disagree exactly when the request changed the trust target (`McpServers.UpdateMcpServer`,
  `McpServerFailures.UpdateHalfDone`).
- A Git delete that throws after taking effect leaves a bearer server's secret live and bound, with no file. Trying again
  finds no server, and frozen tools still resolve (`McpServers.DeleteMcpServer`,
  `McpServerFailures.DeletionStrandsSecret`). When the reads and the vault work and the delete throws late, this
  happens exactly if the server could have been deleted.
- A legacy checkpoint writer that stores a task's first write between a `putWrites`' look for one and its batch lets the
  batch move the task in the order of pending writes (`PendingWrites.LegacyRaceReorders`);
  `PendingWrites.OrderIsStableIff` gives the exact condition.
- Two concurrent creations of one artifact id under two types can both succeed (`OptimisticWrites.ConcurrentCreatesClash`);
  `OptimisticWrites.IdsStayUniqueIff` says for exactly which schedules.
- `boundedArtifactSearch` does not count the commas between results, so the serialized list can pass the byte budget
  (`ArtifactSearch.CommasPassBudget`), by less than ten bytes and exactly when the shown prefix leaves no room for them
  (`ArtifactSearch.SerializedFitsIff`).
- `mapWithConcurrency` with concurrency 0 resolves with holes instead of results (`WorkerPool.MapWithConcurrency`).
- `createMcpServer`'s catch block can never revoke a binding, because the id it tests is only set when nothing threw; the
  cascade from the deleted secret does the work (`McpServers.Uncreate`).

## Model

| member | source | states |
|---|---|---|
| Chunking.BuildGroups | lib/artifact-catalogue.ts:128-129 | The groups concatenate back to the entries in order, every multi-entry group fits the byte limit, and no partition with that fit has fewer groups |
| Chunking.GroupsLossless | lib/artifact-catalogue.ts:123-129 | What a reader reassembles from the groups is the entries, in order |
| Chunking.GroupsOptimal | lib/artifact-catalogue.ts:128-129 | Any order-preserving partition that fits has at least as many groups |
| Chunking.JsonBytesIsLength | lib/artifact-catalogue.ts:128-129 | The size the limit is compared with is the length of the list written out: bracket, texts with commas between, bracket |
| CatalogueInvariant.NextKeeps | lib/artifact-catalogue.ts:67-163 | Every step keeps the protocol invariant: stored chunks are right, stored and in-flight pointers name complete, valid, once-current catalogues no older than their generation, and every suspended call's variables agree with that |
| CatalogueInvariant.ResumeKeeps | lib/artifact-catalogue.ts:93-163 | The local code between two awaits of `load`, `publish`, recovery, cleanup and `invalidate` keeps it, whatever the reply |
| CatalogueInvariant.ReadingKeeps | lib/artifact-catalogue.ts:118-126 | `readSnapshot` never reports corruption and never assembles anything but the catalogue of the pointer's revision |
| CatalogueTheorems.ReadYourWrites | lib/artifact-catalogue.ts:67-163 | After a generation token is stored with the head at r, every load begun later that reads the generation key answers with r or later, whether fresh, refreshed, degraded or stale, whatever slow publishers and late writes do |
| CatalogueTheorems.LoadIsExactAndRecent | lib/artifact-catalogue.ts:93-143 | Every answer is exactly the catalogue of a revision that was the head at an instant not before the answer's refreshedAt; fresh: less than the window before the call; refreshed or degraded: after the call began |
| CatalogueTheorems.PointerNeverTorn | lib/artifact-catalogue.ts:123-143 | In every reachable state all chunks of the stored snapshot pointer are present and assemble to the catalogue of its revision, whichever publications wrote them |
| CatalogueTheorems.PublishedMeansVerified | lib/artifact-catalogue.ts:127-150 | A load reporting a published snapshot passed, in this order: chunks stored under an unchanged generation, revision at the head, own pointer stored, revision at the head again |
| CatalogueTheorems.DirtyIsolateReadsHead | lib/artifact-catalogue.ts:67-78 | While an isolate stays dirty its new loads never answer with anything older than the head when it became so, even when every KV write and generation read fails |
| CatalogueTheorems.OnlyVerifiedPublicationCleans | lib/artifact-catalogue.ts:140-142 | Only a publication of that isolate whose post-publication check found its own revision at the head ends the dirty state |
| CatalogueAnswers.EveryAnswerIsExplained | lib/artifact-catalogue.ts:93-163 | Over every run, each answer of `load` has its reason in the replies this call got: fresh, stale, refreshed, degraded or rejected, published, competing or aborted, and each only for its own reason |
| CatalogueAnswers.ForcedIsNeverFresh | lib/artifact-catalogue.ts:97-100 | A forced load never answers fresh from the cache; unless its answer is stale it asked for the head and got the answer's revision |
| CatalogueAnswers.StaleMeansUnavailable | lib/artifact-catalogue.ts:108-111 | A stale answer means that this very call's request for the head or the catalogue failed |
| CatalogueAnswers.FreshWhenItCan | lib/artifact-catalogue.ts:94-97 | An unforced load of a clean isolate whose reads worked and found a pointer of its generation within the window answers fresh |
| CatalogueAnswers.FullReloads | lib/artifact-catalogue.ts:100-103 | A full reload that is not stale answers with what the repository itself gave this call |
| CatalogueAnswers.QuietLoadPublishes | lib/artifact-catalogue.ts:93-143 | A load that nothing disturbed answers fresh, or refreshed with its snapshot published |
| CatalogueAnswers.CompetitorIsAccepted | lib/artifact-catalogue.ts:151-156 | After a failed write, a load that finds somebody else's publication of the same revision is not degraded |
| CatalogueAnswers.UnverifiedIsTakenBack | lib/artifact-catalogue.ts:139-163 | An unverified own pointer is taken back before the call returns: a new generation is tried and its stored snapshot pointer is deleted, unless somebody else's newer pointer was there, which is left alone |
| CatalogueAnswers.PublishedCleans | lib/artifact-catalogue.ts:140-142 | When a load returns with its snapshot published its isolate is clean |
| CatalogueAnswers.InvalidatedNeverPublishes | lib/artifact-catalogue.ts:67-135 | A load whose isolate was invalidated before it read the generation again never tries to store a pointer, even when the invalidation's own writes failed |
| CatalogueAnswers.InvalidateReports | lib/artifact-catalogue.ts:67-78 | `invalidate` reports success only after storing a token and deleting the stored snapshot pointer, and failure only after a failed write; its isolate was dirty either way |
| LoadFlights.Scope.Resolve | lib/artifact-catalogue.ts:81-91 | A caller joins the current flight exactly if that does all it asks for, queues behind a weaker one or starts a load with its own options, and the chain invariant is kept |
| LoadFlights.Scope.EndLoad | lib/artifact-catalogue.ts:85-90 | A load's end is recorded in its own flight only and the chain invariant is kept |
| LoadFlights.Scope.Settle | lib/artifact-catalogue.ts:86-90 | The finally handler clears the map entry only if it is its own, and the chain invariant is kept |
| LoadFlights.Scope.StartQueued | lib/artifact-catalogue.ts:85 | A queued load starts only when the promise found in the map by its caller has settled, and the chain invariant is kept |
| LoadFlights.AtMostOneRunning | lib/artifact-catalogue.ts:81-91 | At most one load of a scope is executing |
| LoadFlights.AtMostThreeOutstanding | lib/artifact-catalogue.ts:40-91 | Outstanding flights have strictly increasing levels, so there are at most three |
| LoadFlights.EntryGoneWhenDrained | lib/artifact-catalogue.ts:86-90 | The map entry is gone exactly when every flight has settled |
| LoadFlights.CallerIsServed | lib/artifact-catalogue.ts:82-90 | A settled caller holds the result of a load that did what it asked for: a full reload for a full reload, a forced or full one for a forced refresh |
| LoadFlights.ChainAdvances | lib/artifact-catalogue.ts:85-90 | While the map holds a flight, some flight can step |
| CredentialVault.StepKeepsStable | lib/provider-credential-vault.ts:124-134 | A statement that puts a row only under a new id, or puts back an id with a target seen before, never shows an id with two targets or a secret with two credentials |
| CredentialVault.LegalIsStable | lib/provider-credential-vault.ts:122-134 | No history of creates, rotations, replacements, restores, revocations and secret deletions, with any calls throwing, shows a binding id with two trust targets |
| CredentialVault.BindingKeepsTarget | lib/provider-credential-vault.ts:122-134 | In the whole life of a vault a binding id found in the table twice is found with the same trust target |
| CredentialVault.Vault.Create | lib/provider-credential-vault.ts:98-103 | A created secret is new and live; a failed creation leaves nothing new but a secret counted as lost |
| CredentialVault.Vault.Cleanup | lib/mcp-tool-service.ts:9 | The secret and the bindings that use it are gone, or the secret is counted as lost |
| CredentialVault.Vault.Ensure | lib/provider-credential-vault.ts:124 | While the call lasted the server's row was the returned id with this endpoint's target and this secret, also after a lost race; alone, an existing row is never changed |
| CredentialVault.Vault.Rotate | lib/provider-credential-vault.ts:125 | The row had the expected id, target and secret when the statement ran, and only its secret changed |
| CredentialVault.Vault.Replace | lib/provider-credential-vault.ts:126 | The row had the old id and target when the statement ran, and the new target comes with an id never used before |
| CredentialVault.Vault.Restore | lib/provider-credential-vault.ts:127 | Alone, the server's row is the given binding again, whatever it was, or unchanged if it threw before; it succeeds if its calls work, the secret is live and no other server has the id; the history stays legal if the id was seen with this target |
| CredentialVault.Vault.Revoke | lib/provider-credential-vault.ts:134 | The row had that id when the statement ran, and exactly that row is deleted |
| CredentialVault.ReadsAsOne | lib/provider-credential-vault.ts:128-132 | A row read at one time and its secret read later give what one instant would have given |
| CredentialVault.Vault.ResolveBinding | lib/provider-credential-vault.ts:128-132 | At one instant of the call a row of the repository had the id, and the credential was the one stored for its secret |
| McpServers.ParsedIsStable | lib/tool-definitions.ts:4-7 | What the schema accepted once it accepts again unchanged, so a stored definition can be put back as it was |
| McpServers.CreateMcpServer | lib/mcp-tool-service.ts:11-16 | Nothing of another server changes. Success: Git and vault agree (a server without a credential: if it had no binding before), and the only new secret is the one named, holding the token. Failure: a definition left in Git fails closed, the server's row is as before or uses a lost secret, and no new secret is live unless the request leaks it; if no insert or delete of a secret threw, a new live secret is left exactly by a bearer request with a token whose definition the schema refuses. If the Git write did not throw late and the Git delete works, a failure leaves the files as they were. When nothing throws it succeeds exactly for a free id, an acceptable definition and, for bearer, a token and no binding |
| McpServerFailures.CreationLeaks | lib/mcp-tool-service.ts:12-13 | A bearer request for a plain http endpoint, with every call working, fails, leaves Git as it was and leaves its new secret live |
| McpServers.Publish | lib/mcp-tool-service.ts:14-15 | Once the definition is parsed, a failure retires the secret and leaves Git as it was or with a definition naming it; as it was, if the write did not throw late and the delete works |
| McpServers.Uncreate | lib/mcp-tool-service.ts:15 | The compensation retires the secret, or counts it as lost, and removes the file if its delete works |
| McpServers.UpdateMcpServer | lib/mcp-tool-service.ts:18-32 | For every pattern of failing calls nothing of another server changes, except rows using a retired secret. Success: the file had the expected sha, Git holds the new definition, the vault agrees on endpoint and secret, the obsolete secret is retired and the only new one holds the token; while the URL stays the same the binding keeps its id. Write threw: the binding agrees with the old definition; Git holds that or the new one, which fails closed if it was to have a new secret or none, and otherwise names the old live secret and agrees with the binding exactly when the trust target is the same. Compensated failure: the candidate is not live and Git holds the old definition or one naming no live secret; fully compensated: the stores agree again, under the old binding id. If of all database calls only one threw and the second Git update works, it is fully compensated. When nothing throws, an acceptable request is saved |
| McpServerFailures.UpdateHalfDone | lib/mcp-tool-service.ts:21 | A request that moves the endpoint and keeps the secret, its Git write throwing late: reported as failed, with the new endpoint and the live secret in Git and the binding at the old endpoint |
| McpServers.Transition | lib/mcp-tool-service.ts:22-25 | The binding agrees with the definition just saved, under the same id while the URL is the same, and no other server's row is touched; when its calls work it succeeds if the new definition can be bound |
| McpServers.Compensate | lib/mcp-tool-service.ts:26-30 | Git is back exactly if its update works, and otherwise unchanged; the row is the old one, id included, if the vault's calls work and the old secret is live; the candidate is dead, and the old secret is dead if Git is not back |
| McpServers.Settle | lib/mcp-tool-service.ts:22-31 | When the binding can move, it is saved if no database call throws; if one does and the second Git update works, both stores are restored and no secret is lost |
| McpServers.DeleteMcpServer | lib/mcp-tool-service.ts:34 | No secret is new and nothing of another server changes, except rows using the retired secret. Deleted: no file, no binding, no live secret. Git delete, or something before it, threw: the secrets and the server's row are as before, or the row was put where there was none; the file is there or gone, and if it is gone a bearer server's secret is live and bound. Revocation threw: both stores agree again, under the same binding id, or the secret is dead; both agree if of all database calls only that one threw and the Git create works. When nothing throws a server is deleted exactly if its sha is right and its binding can be ensured |
| McpServerFailures.DeleteHalfDone | lib/mcp-tool-service.ts:34 | A deletion whose Git call throws late: reported as failed, with the file gone and the secret live and bound |
| McpServerFailures.DeletionStrandsSecret | lib/mcp-tool-service.ts:34 | Trying that deletion again changes nothing, and a run that froze the tool still gets the credential |
| McpServers.Undelete | lib/mcp-tool-service.ts:34 | The deletion's compensation restores both stores or retires the secret. The file is back exactly if it was gone and the create works; the binding is back if the vault's calls work and the secret is live |
| McpToolAuthority.FreezeAgent | lib/mcp-tool-authority.ts:9 | One frozen tool per grant, in order, for an existing server and tool, its binding id seen with the frozen URL's trust target. Alone, only bindings that definitions ask for are added; when no call throws it succeeds exactly if no grant repeats, every server and tool exists and every bearer server named has its binding or can get it |
| McpToolAuthority.Freeze | lib/mcp-tool-authority.ts:9 | The snapshot has exactly the agents with grants, and for each id the last such agent's tools, one per grant, each binding id seen with the URL beside it. Alone and with no call throwing it succeeds exactly if every agent's grants can be frozen |
| McpToolAuthority.ResolveFrozen | lib/mcp-tool-authority.ts:10 | A missing or mismatched snapshot is refused; each credential is the one that a row of the repository with the frozen id gave at an instant of the call; when nothing throws, it succeeds exactly if every bearer tool's binding is in the table |
| McpToolAuthority.FrozenToolKeepsTarget | lib/mcp-tool-authority.ts:9-10 | In the whole life of a vault, a frozen binding that is in the table has the trust target of its own URL |
| McpToolAuthority.CredentialIsForItsUrl | lib/mcp-tool-authority.ts:9-10 | A credential handed out for a frozen tool comes through a row with the trust target of the tool's URL, although the resolver never checks that URL |
| Checkpoints.ReplayPut | lib/langgraph-checkpoints.ts:34 | A put that once succeeded can be replayed at any later time, reading and inserting at different times, and changes nothing, whatever operations interleave |
| Checkpoints.ReplayWrites | lib/langgraph-checkpoints.ts:35-56 | A non-empty putWrites that once succeeded can be replayed at any later time, each query and the batch at times of their own, and changes nothing, whatever operations interleave |
| Checkpoints.ConflictingWriteRefused | lib/langgraph-checkpoints.ts:49-54 | Content that differs from a row stored by the time of the batch is refused, whenever the queries were |
| Checkpoints.ConflictingPutRefused | lib/langgraph-checkpoints.ts:34 | The same for a checkpoint row |
| Checkpoints.ConflictingPathRefused | lib/langgraph-checkpoints.ts:42-48 | A task with a non-empty path by the time of the batch is only written to again under that path |
| Checkpoints.StepGrows | lib/langgraph-checkpoints.ts:34-56 | Operations only add rows, whatever they read before |
| Checkpoints.CommitIsAtomic | lib/langgraph-checkpoints.ts:42-54 | A batch committed later than its queries has the effect of the whole operation at that instant, exactly when it gives no task that already has writes a non-empty path |
| Checkpoints.MovedIsRaced | lib/langgraph-checkpoints.ts:42-45 | A batch gives a task with writes a path only if a legacy writer stored the task's first write after the operation had looked for one |
| PendingWrites.OrderIsStableIff | lib/langgraph-checkpoints.ts:30-54 | Over any run, every list of pending writes is a subsequence of every later one exactly when no commit moves a task past another task's write |
| PendingWrites.OvertakingReorders | lib/langgraph-checkpoints.ts:30-54 | A commit that moves a task past another task's write reorders the list |
| PendingWrites.StepPaths | lib/langgraph-checkpoints.ts:42-48 | A task with writes keeps its effective path through every step but the one that moves it, from the empty path |
| PendingWrites.PendingOrderIsStable | lib/langgraph-checkpoints.ts:30-56 | Legacy writers included, the list once read is a subsequence of every later one unless a legacy writer stores a task's first write between another operation's look for one and its batch |
| PendingWrites.ListingUnique | lib/langgraph-checkpoints.ts:30 | The ordering query has one answer |
| PendingWrites.LegacyRaceHappens | lib/langgraph-checkpoints.ts:42-54 | A legacy write can land between a putWrites' reads and its batch, which still commits |
| PendingWrites.LegacyRaceReorders | lib/langgraph-checkpoints.ts:30-54 | That interleaving reorders the pending writes |
| WriteRows.RowIsShared | lib/langgraph-checkpoints.ts:39 | Two writes go to one row exactly when they are of one task of one checkpoint and have the same reserved channel, or neither channel is reserved and their positions are the same |
| WriteRows.ReservedFirst | lib/langgraph-checkpoints.ts:30-39 | In every list read in a run a task's writes to reserved channels come first, at most one each, in the order resume, interrupt, scheduled, error |
| WriteRows.PutWritesSucceedsIff | lib/langgraph-checkpoints.ts:35-56 | At one instant the operation succeeds exactly when it is well formed and sized, the task has no other path, no channel is an inherited member, no stored row of its writes has other content and no reserved channel repeats among its new rows |
| WriteRows.PutWritesStores | lib/langgraph-checkpoints.ts:42-54 | Then every row of before is kept, every write's content is stored, nothing else is new, and a task without a path has one if there are writes: the empty one if it had writes, otherwise the one given |
| WriteRows.PutWritesRefusal | lib/langgraph-checkpoints.ts:35-54 | Otherwise the error names the first reason there is |
| CheckpointStore.D1LangGraphCheckpointStore.PutCheckpoint | lib/langgraph-checkpoints.ts:34 | A put that returns has its content stored under its key, by itself or by an earlier one; one that throws changes nothing; alone it reports a conflict exactly when other content is stored. It is a step of the store's run, its query within the call |
| CheckpointStore.D1LangGraphCheckpointStore.PutPendingWrites | lib/langgraph-checkpoints.ts:35-56 | The operation is a step of the store's run: its queries found the store at times within the call, and its batch stored all its rows or, on any error, none. Alone it succeeds exactly when the operation is well formed and sized, its path fits and its rows fit, and then adds its writes and the task's path and nothing else |
| CheckpointStore.D1LangGraphCheckpointStore.CollectInserts | lib/langgraph-checkpoints.ts:47-53 | The loop collects exactly the rows that each query, at its own time, did not find, or the first error |
| CheckpointStore.D1LangGraphCheckpointStore.Tuple | lib/langgraph-checkpoints.ts:30 | The pending writes of the checkpoint in order of effective path, task and index |
| WorkerPool.Pool.Claim | lib/artifact-repository.ts:90-91 | Each index is claimed once, in order, by one worker |
| WorkerPool.Pool.Deliver | lib/artifact-repository.ts:92 | A result lands at its own index and nowhere else |
| WorkerPool.MapWithConcurrency | lib/artifact-repository.ts:86-97 | Under every interleaving of min(concurrency, length) workers the pool resolves exactly when every mapper does, with the sequential map's results |
| RepositoryLayout.SupportedIsSafeCandidate | lib/repository-layout.ts:19-52 | A supported path is exactly a Markdown candidate whose segments are all safe, so both readers judge a candidate's path alike |
| RepositoryLayout.SplitJoins | lib/repository-layout.ts:19-52 | The segments of a path hold no slash and joined by slashes are the path |
| CatalogueReaders.ValidateUniqueIds | lib/artifact-contract.ts:104-111 | For non-empty paths it passes exactly when no id repeats |
| CatalogueReaders.CollectArtifacts | lib/artifact-repository.ts:458-468 | The artifacts in order, exactly when every file loads and no id repeats |
| CatalogueReaders.LoadCatalogue | lib/artifact-repository.ts:330-342 | Success exactly when every candidate blob of the tree holds an artifact with a sha found for its path, and no two the same id. The answer has, for every candidate and in tree order, the artifact its blob parses to and that sha, and nothing else |
| CatalogueReaders.CandidatesArePicked | lib/artifact-repository.ts:346 | The filter keeps every candidate of the tree, once for each entry, in tree order, and nothing else |
| CatalogueReaders.CheckFileIsRight | lib/artifact-repository.ts:347-358 | A file passes exactly when it has no fault, with the artifact its blob parses to; otherwise the fault reported is the first there is |
| CatalogueReaders.DiagnoseCatalogue | lib/artifact-repository.ts:343-367 | Every candidate of the tree is checked; the invalid count is the number of files that fail or share their id with another that passes, the valid count is the rest; the first fifty faults are reported with their codes, failed files in order and then duplicates by first appearance of their id, and the others are counted as omitted |
| CatalogueReaders.FileAgrees | lib/artifact-repository.ts:348-358 | The diagnoser passes a candidate exactly when the loader loads it and its sha is a sha |
| CatalogueReaders.ReadersAgree | lib/artifact-repository.ts:330-367 | With unique paths and matching sizes, the loader succeeds exactly when the diagnoser finds nothing invalid |
| OptimisticWrites.UpdateReplacesNamedBlob | lib/artifact-repository.ts:375-389 | Every successful update replaced exactly the blob its caller named, and that blob had the submitted identity |
| OptimisticWrites.SentIff | lib/artifact-repository.ts:369-446 | A request is sent exactly from a readable tree, for a creation of a free id at a free path or for an update, identity unchanged, or deletion of the very blob that holds the id; and it is that request |
| OptimisticWrites.WriteGoesThrough | lib/artifact-repository.ts:369-446 | Whatever others do in between, such a write succeeds if the file is still as it expects when the request is delivered and reported, and changes just that |
| OptimisticWrites.IdentityNeverChanges | lib/artifact-repository.ts:128-132 | Id, type, source and creation time at a path never change between its creation and its deletion, under any interleaving of writers |
| OptimisticWrites.StepKeeps | lib/artifact-repository.ts:369-446 | Every update in flight carries the identity of the very blob it will replace |
| OptimisticWrites.ConcurrentCreatesClash | lib/artifact-repository.ts:437-446 | Two creations of one id under two types, each acceptable alone, can both succeed |
| OptimisticWrites.IdsStayUniqueIff | lib/artifact-repository.ts:437-446 | From unique ids, ids stay unique through a whole run exactly when no applied creation was overtaken, between reading the tree and its request, by a creation of the same id elsewhere that was not deleted again |
| Utf8.ValidIffEncoded | lib/artifact-search-tool.ts:13 | A byte string passes the strict reader exactly when it encodes some code points |
| Utf8.TruncateUtf8 | lib/artifact-search-tool.ts:13 | The longest valid prefix that fits, at most three bytes short of the limit, encoding the longest prefix of whole code points |
| ArtifactSearch.ArtifactSearchAuthorityBudget.AcceptCall | lib/artifact-search-tool.ts:17 | The pruning loop and the decision are those of the specification |
| ArtifactSearch.BudgetRefinesLedger | lib/artifact-search-tool.ts:17 | On every call before its authority's expiry the pruned budget decides as a ledger that is never pruned |
| ArtifactSearch.ExpiredAreDropped | lib/artifact-search-tool.ts:17 | A call leaves no expired entry behind but its own, and drops nothing else |
| ArtifactSearch.AtMostFourAndNeverTwice | lib/artifact-search-tool.ts:17 | In any interleaving of nonces a nonce gets at most four accepted calls and no call id twice |
| ArtifactSearch.BoundedSearch | lib/artifact-search-tool.ts:14 | The longest prefix of the first matches whose sizes fit; truncated exactly when a match is missing |
| ArtifactSearch.SerializedFitsIff | lib/artifact-search-tool.ts:14 | The serialized list fits the budget exactly when the shown prefix leaves room for its commas, and passes it by less than ten bytes otherwise |
| ArtifactSearch.CommasPassBudget | lib/artifact-search-tool.ts:14 | Ten matches of 127,986 bytes are all shown and serialize to 128,009 |
| Der.DerLengthOf | lib/github-app.ts:35-40 | The loop computes the length form of the specification, 32-bit shift included |
| Der.LengthRoundTrip | lib/github-app.ts:35-40 | Below 2^32 the encoding is the minimal definite form and reads back, whatever follows |
| Der.LengthReadsBackIff | lib/github-app.ts:38 | A length reads back exactly when it is below 2^32 |
| Der.ValueRoundTrip | lib/github-app.ts:42-44 | A wrapped value reads back with exactly what follows it |
| Der.Pkcs8RoundTrip | lib/github-app.ts:46-50 | A strict reader consumes every byte and finds version 0, rsaEncryption with NULL, and the key |
| Reaches.Search.Visit | components/WorkflowDefinitionEditor.tsx:90 | Found: a path exists. Not found: the nodes newly visited are closed under edges and exclude the target |
| Reaches.ReachesTarget | components/WorkflowDefinitionEditor.tsx:90 | True exactly when a path of zero or more edges exists |
| Reaches.ContextSources | components/WorkflowDefinitionEditor.tsx:91 | Exactly the publishing agents, other than the consumer, from which it can be reached |
| DefinitionIds.IdIsCanonical | lib/definition-id.ts:4-13 | The result is empty or a valid id of at most 80 characters |
| DefinitionIds.IdIsIdempotent | lib/definition-id.ts:4-13 | Applying it twice changes nothing more; a valid id is its own id |
| DefinitionIds.IdSpellsName | lib/definition-id.ts:4-13 | Before the cut at 80 the id is the letters and digits of the trimmed, lowered name in order, with one dash exactly where other characters separate two of them; the cut leaves no dash at the end |
| DefinitionIds.PatternIsValidId | lib/provider-connection-presentation.ts:41 | The character-wise form used in the proofs is the id pattern |
| DefinitionIds.CandidatesDiffer | lib/provider-connection-presentation.ts:41-43 | Candidates for different copy numbers are distinct |
| DefinitionIds.CandidateIsCopy | lib/provider-connection-presentation.ts:41-43 | A candidate is the source and -copy or -copy- and its number; only what does not fit in 80 characters, and a dash at the cut, is left off the source |
| DefinitionIds.DecimalIsNumeral | lib/provider-connection-presentation.ts:43 | The number is written in decimal without leading zeros |
| DefinitionIds.FirstFree | lib/provider-connection-presentation.ts:42-43 | The search ends after at most one rejection per taken key, at the first free candidate |
| DefinitionIds.DuplicateKey | lib/provider-connection-presentation.ts:39-43 | The key is unused and not the source's; from a valid source id it matches the pattern and has at most 80 characters |

## Left out

- CatalogueTheorems.ReadYourWrites: says nothing of callers that join a flight begun before the token was stored, nor of KV eventual consistency.
- Catalogue keys of different repositories, branches and roots: one scope is modelled, and the identity checks on pointers and chunks with it.
- Catalogue logging, the rate-limit label of a stale answer, the read-only inspection and the environment override of the freshness window.
- CredentialVault.Vault.Restore: promises a legal history only for an id seen with the endpoint's target before; the source does not check it, and the sagas are proved to call it no other way.
- CredentialVault.Vault.Create: encryption, the master key versions and the format checks on ids are not modelled.
- McpServers.CreateMcpServer: lengths are counted in characters, not in UTF-16 units, and the catalogue of tools is not checked by the modelled schema.
- McpToolAuthority.FreezeAgent: the vault is always given, a tool's alias is represented by its server and name, and its schema and description are not modelled.
- Checkpoints.ReplayWrites: the authority tokens, `get` by latest time, `list` and `deleteThread` are not modelled; a run is one without `deleteThread`.
- CatalogueReaders.DiagnoseCatalogue: the three codes of a refused blob are one code here, and so are the three of a refused text; paths and messages of the diagnostics are not modelled.
- CatalogueReaders.LoadCatalogue: the order by title is not modelled, and a transport failure, which aborts either reader, is not an outcome.
- OptimisticWrites.UpdateReplacesNamedBlob: metadata normalization, the secret scan, the size limit and the parsing of GitHub's response are not modelled; a parsed file is its identity and its text.
- ArtifactSearch.BoundedSearch: the search itself and the artifact fields of a result are not modelled, only their sizes.
- DefinitionIds.DuplicateKey: `toLowerCase` is a parameter; the copied name, model and runtime of the draft are not modelled.
- Security profiles, session authorization, network adapters, presentation and the workflow engine.
