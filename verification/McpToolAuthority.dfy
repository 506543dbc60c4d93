/** The MCP tools a run may call, frozen when it starts and resolved when it needs them: lib/mcp-tool-authority.ts. */
module McpToolAuthority {
  import opened Options
  import opened CredentialVault
  import opened McpServers

  datatype Grant = Grant(server: ServerId, tool: string)
  datatype FrozenTool = FrozenTool(
    server: ServerId, tool: string, endpoint: Endpoint, binding: Option<BindingId>, bearer: bool)
  datatype ResolvedTool = ResolvedTool(frozen: FrozenTool, credential: Option<string>)

  /** The binding id frozen beside a URL was in the table with the trust target of that URL. */
  ghost predicate FrozenOk(h: seq<Tables>, frozen: FrozenTool) {
    frozen.binding.Some? ==> frozen.endpoint.href.Some? && Seen(h, frozen.binding.value, frozen.endpoint.href.value)
  }

  /** A grant frozen against the definition it was resolved from. */
  ghost predicate FrozenFor(h: seq<Tables>, servers: map<ServerId, Definition>, grant: Grant, frozen: FrozenTool) {
    && grant.server in servers && grant.tool in servers[grant.server].tools
    && frozen.server == grant.server && frozen.tool == grant.tool
    && frozen.endpoint == servers[grant.server].endpoint
    && frozen.bearer == servers[grant.server].auth.Bearer? && (frozen.binding.Some? <==> frozen.bearer)
    && FrozenOk(h, frozen)
  }

  /** One frozen tool per grant, in grant order. */
  ghost predicate AllFrozen(
      h: seq<Tables>, servers: map<ServerId, Definition>, grants: seq<Grant>, frozen: seq<FrozenTool>)
  {
    |frozen| == |grants| && forall i :: 0 <= i < |grants| ==> FrozenFor(h, servers, grants[i], frozen[i])
  }

  lemma AllFrozenStays(
      h: seq<Tables>, h': seq<Tables>, servers: map<ServerId, Definition>, grants: seq<Grant>, frozen: seq<FrozenTool>)
    requires AllFrozen(h, servers, grants, frozen) && h <= h'
    ensures AllFrozen(h', servers, grants, frozen)
  {
    forall i | 0 <= i < |grants| ensures FrozenFor(h', servers, grants[i], frozen[i]) {
      assert FrozenFor(h, servers, grants[i], frozen[i]);
      if frozen[i].binding.Some? { SeenStays(h, h', frozen[i].binding.value, frozen[i].endpoint.href.value); }
    }
  }

  /** A tool's alias is a digest of its server and name, so aliases collide just when a grant repeats. */
  predicate Distinct(grants: seq<Grant>) {
    forall i, j :: 0 <= i < j < |grants| ==> grants[i] != grants[j]
  }

  /** The server is listed, and its binding is there or can be put there if it needs one. */
  predicate Bindable(repository: RepositoryId, servers: map<ServerId, Definition>, s: ServerId, t: Tables) {
    && s in servers
    && (servers[s].auth.Bearer? ==> CanEnsure((repository, s), servers[s].endpoint, servers[s].auth.secret, t))
  }

  /** When no call throws, the grants of an agent can be frozen just if this holds. */
  predicate CanFreeze(
      repository: RepositoryId, servers: map<ServerId, Definition>, grants: seq<Grant>, t: Tables)
  {
    Distinct(grants) && forall g :: g in grants ==> Grantable(repository, servers, g, t)
  }

  predicate Grantable(repository: RepositoryId, servers: map<ServerId, Definition>, grant: Grant, t: Tables) {
    Bindable(repository, servers, grant.server, t) && grant.tool in servers[grant.server].tools
  }

  /** Nothing is removed or changed, and a row that is new is the one its server's definition asks for. */
  predicate OnlyBinds(repository: RepositoryId, servers: map<ServerId, Definition>, t: Tables, t': Tables) {
    && t'.secrets == t.secrets
    && (forall k :: k in t.rows ==> k in t'.rows && t'.rows[k] == t.rows[k])
    && (forall k :: k in t'.rows && k !in t.rows ==>
          && k.0 == repository && k.1 in servers && servers[k.1].auth == Bearer(t'.rows[k].secret)
          && Some(t'.rows[k].target) == servers[k.1].endpoint.href)
  }

  /** The same servers can be bound. */
  ghost predicate SameBindable(repository: RepositoryId, servers: map<ServerId, Definition>, t: Tables, t': Tables) {
    forall s :: Bindable(repository, servers, s, t) <==> Bindable(repository, servers, s, t')
  }

  /** One binding more, as its definition asks, is no hindrance to any other. */
  lemma StillBindable(
      repository: RepositoryId, servers: map<ServerId, Definition>, s: ServerId, t: Tables, t': Tables)
    requires s in servers && servers[s].auth.Bearer? && RowOnly((repository, s), t, t') && t'.secrets == t.secrets
    requires CanEnsure((repository, s), servers[s].endpoint, servers[s].auth.secret, t)
    requires CanEnsure((repository, s), servers[s].endpoint, servers[s].auth.secret, t')
    ensures SameBindable(repository, servers, t, t')
  {
    forall o ensures Bindable(repository, servers, o, t) <==> Bindable(repository, servers, o, t') {
      var key := (repository, o);
      assert o != s ==> (key in t.rows <==> key in t.rows - {(repository, s)});
      assert o != s ==> (key in t'.rows <==> key in t'.rows - {(repository, s)});
    }
  }

  lemma SameFreezes(
      repository: RepositoryId, servers: map<ServerId, Definition>, grants: seq<Grant>, t: Tables, t': Tables)
    requires SameBindable(repository, servers, t, t')
    ensures CanFreeze(repository, servers, grants, t) <==> CanFreeze(repository, servers, grants, t')
  {
    forall g: Grant ensures Grantable(repository, servers, g, t) <==> Grantable(repository, servers, g, t') {
      assert Bindable(repository, servers, g.server, t) <==> Bindable(repository, servers, g.server, t');
    }
  }

  /** The tools of one agent, in grant order; `None` when a server or tool is missing, an alias collides or a
      call threw. */
  method FreezeAgent(repository: RepositoryId, grants: seq<Grant>, servers: map<ServerId, Definition>, vault: Vault)
      returns (r: Option<seq<FrozenTool>>)
    requires vault.Valid()
    modifies vault
    ensures vault.Valid() && old(vault.history) <= vault.history
    ensures old(vault.calls) <= vault.calls
    ensures r.Some? ==> Distinct(grants) && AllFrozen(vault.history, servers, grants, r.value)
    ensures !vault.shared ==> OnlyBinds(repository, servers, old(vault.tables), vault.tables)
    ensures !vault.shared && r.Some? ==> SameBindable(repository, servers, old(vault.tables), vault.tables)
    ensures !vault.shared && r.Some? ==> CanFreeze(repository, servers, grants, old(vault.tables))
    ensures !vault.shared && vault.Worked(old(vault.calls), vault.calls) ==>
      (r.Some? <==> CanFreeze(repository, servers, grants, old(vault.tables)))
  {
    var result: seq<FrozenTool> := [];
    for n := 0 to |grants|
      invariant vault.Valid() && old(vault.history) <= vault.history && old(vault.calls) <= vault.calls
      invariant AllFrozen(vault.history, servers, grants[..n], result)
      invariant !vault.shared ==>
        && OnlyBinds(repository, servers, old(vault.tables), vault.tables)
        && SameBindable(repository, servers, old(vault.tables), vault.tables)
        && forall g :: g in grants[..n] ==> Grantable(repository, servers, g, old(vault.tables))
    {
      var grant := grants[n];
      assert grants[..n + 1] == grants[..n] + [grant];
      assert grant in grants && (!vault.shared ==>
        (Bindable(repository, servers, grant.server, old(vault.tables)) <==>
         Bindable(repository, servers, grant.server, vault.tables)));
      if grant.server !in servers || grant.tool !in servers[grant.server].tools { return None; }
      var server := servers[grant.server];
      var binding: Option<BindingId> := None;
      if server.auth.Bearer? {
        ghost var before, was := vault.history, vault.tables;
        binding := vault.Ensure(repository, grant.server, server.endpoint, server.auth.secret);
        if binding.None? { return None; }
        if !vault.shared { StillBindable(repository, servers, grant.server, was, vault.tables); }
        AllFrozenStays(before, vault.history, servers, grants[..n], result);
      }
      var frozen := FrozenTool(grant.server, grant.tool, server.endpoint, binding, server.auth.Bearer?);
      assert FrozenFor(vault.history, servers, grant, frozen);
      result := result + [frozen];
    }
    assert grants[..|grants|] == grants;
    r := if Distinct(grants) then Some(result) else None;
  }

  datatype Agent = Agent(id: string, grants: seq<Grant>)

  /** Of the first n agents, the last one with this id that has grants. */
  predicate LastOf(agents: seq<Agent>, n: nat, a: nat) {
    && a < n <= |agents| && agents[a].grants != []
    && forall b :: a < b < n && agents[b].grants != [] ==> agents[b].id != agents[a].id
  }

  ghost predicate EntryOf(
      h: seq<Tables>, servers: map<ServerId, Definition>, agent: Agent, snapshot: map<string, seq<FrozenTool>>)
  {
    agent.id in snapshot && Distinct(agent.grants) && AllFrozen(h, servers, agent.grants, snapshot[agent.id])
  }

  ghost predicate Entries(
      h: seq<Tables>, servers: map<ServerId, Definition>, agents: seq<Agent>, n: nat,
      snapshot: map<string, seq<FrozenTool>>)
  {
    forall a: nat :: LastOf(agents, n, a) ==> EntryOf(h, servers, agents[a], snapshot)
  }

  ghost predicate OnlyAgents(agents: seq<Agent>, n: nat, snapshot: map<string, seq<FrozenTool>>) {
    forall id :: id in snapshot ==> exists a: nat :: LastOf(agents, n, a) && agents[a].id == id
  }

  /** The snapshot of the first n agents. */
  ghost predicate SnapshotOf(
      h: seq<Tables>, servers: map<ServerId, Definition>, agents: seq<Agent>, n: nat,
      snapshot: map<string, seq<FrozenTool>>)
  {
    Entries(h, servers, agents, n, snapshot) && OnlyAgents(agents, n, snapshot)
  }

  /** `freezeAuthorizedMcpTools`: the snapshot holds, for every agent with grants, one frozen tool per grant, its
      binding id seen with the URL beside it. */
  method Freeze(repository: RepositoryId, agents: seq<Agent>, servers: map<ServerId, Definition>, vault: Vault)
      returns (r: Option<map<string, seq<FrozenTool>>>)
    requires vault.Valid()
    modifies vault
    ensures vault.Valid() && old(vault.history) <= vault.history
    ensures old(vault.calls) <= vault.calls
    ensures r.Some? ==> SnapshotOf(vault.history, servers, agents, |agents|, r.value)
    ensures !vault.shared ==> OnlyBinds(repository, servers, old(vault.tables), vault.tables)
    ensures !vault.shared && vault.Worked(old(vault.calls), vault.calls) ==>
      (r.Some? <==> forall agent :: agent in agents ==>
         CanFreeze(repository, servers, agent.grants, old(vault.tables)))
  {
    var snapshot: map<string, seq<FrozenTool>> := map[];
    for n := 0 to |agents|
      invariant vault.Valid() && old(vault.history) <= vault.history && old(vault.calls) <= vault.calls
      invariant SnapshotOf(vault.history, servers, agents, n, snapshot)
      invariant !vault.shared ==>
        && OnlyBinds(repository, servers, old(vault.tables), vault.tables)
        && SameBindable(repository, servers, old(vault.tables), vault.tables)
        && forall agent :: agent in agents[..n] ==> CanFreeze(repository, servers, agent.grants, old(vault.tables))
    {
      assert agents[n] in agents && agents[..n + 1] == agents[..n] + [agents[n]];
      if !vault.shared { SameFreezes(repository, servers, agents[n].grants, old(vault.tables), vault.tables); }
      ghost var before := vault.history;
      var tools := FreezeAgent(repository, agents[n].grants, servers, vault);
      if tools.None? { return None; }
      SnapshotGrows(before, vault.history, servers, agents, n, snapshot, tools.value);
      snapshot := WithEntry(snapshot, agents[n], tools.value);
    }
    r := Some(snapshot);
  }

  function WithEntry(
      snapshot: map<string, seq<FrozenTool>>, agent: Agent, tools: seq<FrozenTool>): map<string, seq<FrozenTool>>
  {
    if tools == [] then snapshot else snapshot[agent.id := tools]
  }

  lemma EntryStays(
      h: seq<Tables>, h': seq<Tables>, servers: map<ServerId, Definition>, agents: seq<Agent>, n: nat,
      snapshot: map<string, seq<FrozenTool>>, tools: seq<FrozenTool>, a: nat)
    requires h <= h' && n < |agents| && LastOf(agents, n + 1, a)
    requires LastOf(agents, n, a) ==> EntryOf(h, servers, agents[a], snapshot)
    requires Distinct(agents[n].grants) && AllFrozen(h', servers, agents[n].grants, tools)
    ensures EntryOf(h', servers, agents[a], WithEntry(snapshot, agents[n], tools))
  {
    if a < n {
      AllFrozenStays(h, h', servers, agents[a].grants, snapshot[agents[a].id]);
    }
  }

  lemma LastStays(agents: seq<Agent>, n: nat, id: string) returns (a: nat)
    requires n < |agents| && (agents[n].grants == [] || agents[n].id != id)
    requires exists b: nat :: LastOf(agents, n, b) && agents[b].id == id
    ensures LastOf(agents, n + 1, a) && agents[a].id == id
  {
    a :| LastOf(agents, n, a) && agents[a].id == id;
  }

  lemma SnapshotGrows(
      h: seq<Tables>, h': seq<Tables>, servers: map<ServerId, Definition>, agents: seq<Agent>, n: nat,
      snapshot: map<string, seq<FrozenTool>>, tools: seq<FrozenTool>)
    requires h <= h' && n < |agents| && SnapshotOf(h, servers, agents, n, snapshot)
    requires Distinct(agents[n].grants) && AllFrozen(h', servers, agents[n].grants, tools)
    ensures SnapshotOf(h', servers, agents, n + 1, WithEntry(snapshot, agents[n], tools))
  {
    var after := WithEntry(snapshot, agents[n], tools);
    assert Entries(h', servers, agents, n + 1, after) by {
      forall a: nat | LastOf(agents, n + 1, a) ensures EntryOf(h', servers, agents[a], after) {
        EntryStays(h, h', servers, agents, n, snapshot, tools, a);
      }
    }
    assert OnlyAgents(agents, n + 1, after) by {
      forall id | id in after ensures exists a: nat :: LastOf(agents, n + 1, a) && agents[a].id == id {
        if tools != [] && id == agents[n].id {
          assert LastOf(agents, n + 1, n);
        } else {
          var a := LastStays(agents, n, id);
        }
      }
    }
  }

  predicate Covers(grants: seq<Grant>, frozen: seq<FrozenTool>) {
    |frozen| == |grants| && forall g :: g in grants ==>
      exists f :: f in frozen && f.server == g.server && f.tool == g.tool
  }

  /** A tool that needs a credential got it through a row of this repository with the frozen binding id, which
      was in the table, together with that credential, at an instant not before `from`. */
  ghost predicate ResolvedAs(
      h: seq<Tables>, from: nat, repository: RepositoryId, frozen: FrozenTool, resolved: ResolvedTool)
  {
    && resolved.frozen == frozen && (resolved.credential.Some? <==> frozen.bearer)
    && (frozen.bearer ==> frozen.binding.Some? && exists row: Row ::
          row.id == frozen.binding.value && ResolvedSince(h, from, repository, row, resolved.credential.value))
  }

  ghost predicate AllResolved(
      h: seq<Tables>, from: nat, repository: RepositoryId, frozen: seq<FrozenTool>, resolved: seq<ResolvedTool>)
  {
    |resolved| == |frozen| && forall i :: 0 <= i < |frozen| ==> ResolvedAs(h, from, repository, frozen[i], resolved[i])
  }

  lemma ResolvedStays(
      h: seq<Tables>, h': seq<Tables>, from: nat, repository: RepositoryId, frozen: FrozenTool, resolved: ResolvedTool)
    requires ResolvedAs(h, from, repository, frozen, resolved) && h <= h'
    ensures ResolvedAs(h', from, repository, frozen, resolved)
  {
    if frozen.bearer {
      var row: Row :| row.id == frozen.binding.value &&
        ResolvedSince(h, from, repository, row, resolved.credential.value);
      var m: nat, k :| from <= m < |h| && Joins(h[m], k, repository, row, resolved.credential.value);
      assert Joins(h'[m], k, repository, row, resolved.credential.value);
      assert ResolvedSince(h', from, repository, row, resolved.credential.value);
    }
  }

  /** The tool needs no credential, or its binding is in the table. */
  ghost predicate Resolvable(repository: RepositoryId, frozen: FrozenTool, t: Tables) {
    frozen.bearer ==>
      frozen.binding.Some? &&
      exists k: Key :: k in t.rows && k.0 == repository && t.rows[k].id == frozen.binding.value
  }

  /** `resolveFrozenMcpTools`: each credential is the one its binding id stood for at some instant of the call. */
  method ResolveFrozen(repository: RepositoryId, grants: seq<Grant>, snapshot: Option<seq<FrozenTool>>, vault: Vault)
      returns (r: Option<seq<ResolvedTool>>)
    requires vault.Valid()
    modifies vault
    ensures vault.Valid() && old(vault.history) <= vault.history
    ensures old(vault.calls) <= vault.calls
    ensures !vault.shared ==> vault.history == old(vault.history)
    ensures grants == [] ==> r == Some([])
    ensures grants != [] && (snapshot.None? || !Covers(grants, snapshot.value)) ==> r.None?
    ensures r.Some? && grants != [] ==>
      AllResolved(vault.history, |old(vault.history)| - 1, repository, snapshot.value, r.value)
    ensures !vault.shared && vault.Worked(old(vault.calls), vault.calls) && grants != [] && snapshot.Some? ==>
      Covers(grants, snapshot.value) ==>
      (r.Some? <==> forall f :: f in snapshot.value ==> Resolvable(repository, f, old(vault.tables)))
  {
    if grants == [] { return Some([]); }
    if snapshot.None? || !Covers(grants, snapshot.value) { return None; }
    var frozen := snapshot.value;
    var result: seq<ResolvedTool> := [];
    for n := 0 to |frozen|
      invariant vault.Valid() && old(vault.history) <= vault.history && old(vault.calls) <= vault.calls
      invariant !vault.shared ==> vault.history == old(vault.history)
      invariant AllResolved(vault.history, |old(vault.history)| - 1, repository, frozen[..n], result)
      invariant !vault.shared && vault.Worked(old(vault.calls), vault.calls) ==>
        forall i :: 0 <= i < n ==> Resolvable(repository, frozen[i], old(vault.tables))
    {
      assert frozen[n] in frozen;
      ghost var before := vault.history;
      var credential: Option<string> := None;
      if frozen[n].bearer {
        if frozen[n].binding.None? { return None; }
        credential := vault.ResolveBinding(repository, frozen[n].binding.value);
        if credential.None? { return None; }
      }
      result := result + [ResolvedTool(frozen[n], credential)];
      ResolvedMore(before, vault.history, |old(vault.history)| - 1, repository, frozen[..n], frozen[n], result);
      assert frozen[..n + 1] == frozen[..n] + [frozen[n]];
    }
    assert frozen[..|frozen|] == frozen;
    r := Some(result);
  }

  lemma ResolvedMore(
      h: seq<Tables>, h': seq<Tables>, from: nat, repository: RepositoryId, frozen: seq<FrozenTool>, last: FrozenTool,
      resolved: seq<ResolvedTool>)
    requires h <= h' && |resolved| == |frozen| + 1 && from < |h|
    requires AllResolved(h, from, repository, frozen, resolved[..|frozen|])
    requires ResolvedAs(h', |h| - 1, repository, last, resolved[|frozen|])
    ensures AllResolved(h', from, repository, frozen + [last], resolved)
  {
    forall i | 0 <= i < |frozen| ensures ResolvedAs(h', from, repository, frozen[i], resolved[i]) {
      assert resolved[..|frozen|][i] == resolved[i];
      ResolvedStays(h, h', from, repository, frozen[i], resolved[i]);
    }
    if last.bearer {
      var credential := resolved[|frozen|].credential.value;
      var row: Row :| row.id == last.binding.value && ResolvedSince(h', |h| - 1, repository, row, credential);
      assert ResolvedSince(h', from, repository, row, credential);
    }
  }

  /** The resolver checks no endpoint. Yet whenever the binding of a frozen tool is in the table, at the time it
      is resolved or at any other, its row has the trust target of the URL frozen beside it, whatever was created,
      rotated, replaced, restored, revoked or left half compensated in between. */
  lemma FrozenToolKeepsTarget(vault: Vault, n: nat, frozen: FrozenTool, m: nat, k: Key)
    requires vault.Valid() && n <= |vault.history| && FrozenOk(vault.history[..n], frozen)
    requires m < |vault.history| && k in vault.history[m].rows && Some(vault.history[m].rows[k].id) == frozen.binding
    ensures Some(vault.history[m].rows[k].target) == frozen.endpoint.href
  {
    var h := vault.history;
    var i: nat, l :| i < n && HasBinding(h[..n][i], l, frozen.binding.value, frozen.endpoint.href.value);
    BindingKeepsTarget(vault, i, m, l, k);
  }

  /** So a credential is only ever handed out for the URL it was bound to. */
  lemma CredentialIsForItsUrl(
      vault: Vault, n: nat, from: nat, repository: RepositoryId, frozen: FrozenTool, resolved: ResolvedTool)
    requires vault.Valid() && n <= |vault.history| && FrozenOk(vault.history[..n], frozen)
    requires frozen.bearer && ResolvedAs(vault.history, from, repository, frozen, resolved)
    ensures exists row: Row, m: nat, k: Key ::
      && from <= m < |vault.history| && Joins(vault.history[m], k, repository, row, resolved.credential.value)
      && Some(row.target) == frozen.endpoint.href
  {
    var row: Row :| row.id == frozen.binding.value &&
      ResolvedSince(vault.history, from, repository, row, resolved.credential.value);
    var m: nat, k :| from <= m < |vault.history| &&
      Joins(vault.history[m], k, repository, row, resolved.credential.value);
    FrozenToolKeepsTarget(vault, n, frozen, m, k);
  }
}
